# Verified models of a RISC-V teaching stack

The repository holds an emulator (NEMU), a bare-metal runtime (abstract-machine) and their tools. This
project models the parts whose correctness is not obvious from reading them, and proves what they are for:

* the Kconfig dependency optimiser (`nemu/tools/kconfig/expr.c`) and the parts of menu building that use it,
* the Kconfig dependency-cycle check and the quoting of string values,
* minirv, which lowers RV32I to add, addi, lui, lw, lbu, sw, sb and jalr with lookup tables and scratch
  slots below the stack pointer, up to the simulation of whole runs,
* the 64-bit division runtime with its bit counting,
* instruction pattern decoding and the riscv32 table,
* the debugger's lexer and expression evaluator together with the generator of test expressions,
* the cache simulator and the watchpoint pool.

`dafny verify dfyconfig.toml` checks the whole project.

## Layout

| files | contents |
|---|---|
| `Options.dfy`, `Strtol.dfy`, `Numerals.dfy`, `Bits.dfy` | optional values; C library number parsing and what it reads back from written numbers; shifts and bitwise operators on natural numbers |
| `KconfigExpr.dfy`, `KconfigOrder.dfy` | three-valued expressions, environments, the comparator of `expr_calc_value`, and what it decides on numbers, tristates and strings |
| `KconfigTransform.dfy`, `KconfigEq.dfy`, `KconfigJoin.dfy`, `KconfigDups.dfy`, `KconfigCompare.dfy` | the rewriting passes |
| `KconfigMenu.dfy`, `KconfigDeps.dfy`, `KconfigString.dfy` | dependency propagation and submenus, cycle check, quoting |
| `Int64.dfy`, `Int64Div.dfy`, `Int64Signed.dfy` | bit counting, unsigned and signed division |
| `RvMachine.dfy`, `RvTables.dfy`, `RvScratch.dfy` | the base machine, the tables and their generator, what macros may touch |
| `RvBasic.dfy`, `RvLogic.dfy`, `RvCompare.dfy`, `RvShiftMath.dfy`, `RvShift.dfy`, `RvShiftRight.dfy`, `RvMemory.dfy`, `RvBranch.dfy` | the macros |
| `RvSimulate.dfy`, `RvProgram.dfy` | each replaced instruction, and whole programs |
| `Decode.dfy`, `RiscvTable.dfy`, `RiscvEncoding.dfy` | pattern strings, the table of patterns, and the encodings it stands for |
| `SdbLex.dfy`, `SdbExpr.dfy`, `SdbPrint.dfy`, `SdbLost.dfy`, `SdbMeaning.dfy`, `GenExpr.dfy` | the debugger's lexer, its evaluator, what they make of printed expressions, the comparisons that leave no token, what the expressions mean in C, and the generator of tests |
| `Watchpoint.dfy`, `CacheSim.dfy` | the watchpoint pool and the cache simulator |

Conventions. A Kconfig environment gives every symbol a setting that is read according to the symbol's
type, so that every environment is well typed: boolean symbols are n or y, tristate symbols n, m or y.
Panics, aborts and assertion failures are values (`None`, `Panic`). Random choices are nondeterministic,
so that statements hold for all of them. Some definitions about machine words (`Exec`, `ByteOf`, `La`, ...)
are folded behind one extra recursive step with a lemma that unfolds them; this only keeps proofs small.

## Where the code and the expectation differ

* `expr_join_and` turns `a="b" && a!="c"` into `a="b"` for different constants. The constants `y` and a quoted `"2"`
  are different symbols that a tristate symbol can equal at once (an unquoted 2 is no constant: parser.y:461-464).
  `JoinAndClashes` is such an input and `JoinAndExact` gives the exact condition for one join.
  `expr_eliminate_dups` never lowers a value, and keeps it if no tristate symbol is tested by = or != with two
  different constants that clash in this way. There y, m and n count as tested with every symbol, because joins bring
  them in: `a && a!=m && a!="2"` becomes `a=y` although m and "2" do not clash (`ClashesThroughYes`). If the condition
  fails, some join of such tests changes the value (`ClashFreeExact`).
* `expr_trans_compare` pushes a comparison through NOT as if values were n or y. `NegatedCompareExact` states
  exactly for which symbols this is right, and `SupersetIgnoresModules` shows that the submenu test inherits it.
* The superset test for submenus recognises a condition only inside an `&&`: `SupersetExact`. An item whose condition
  is equal to the prompt's condition, but is no `&&`, does not pass.
* `expr_trans_bool` keeps whether a value is n where no comparison `A!=n` of a tristate symbol stands below a NOT, and
  directly below a NOT only there (`TransBoolBelowNot`). menu_finalize calls it on transformed trees, which have no
  comparison below a NOT, so it never meets the failing case.
* `seqz s0, r` restores s0 after having written its result there: `SeqzExact`. `seq` does the same to s0 and s1:
  `SeqExact`. `seqz sp, r` takes s0 from below the new stack pointer: `SeqzIntoSp`. `lb sp` addresses its scratch slot
  through the stack pointer that it has just overwritten, so that the loaded byte is written over other memory:
  `LbIntoSp`, with the exact condition under which no memory is harmed.
* The lexer decides what a `*` is from the token before it. Directly after `(` it takes a unary `*` for a product, and
  evaluation panics: `EvalPrintedExact`, `StarInParens`. The second of two stars becomes a product too, so that `**x`
  is 0: `TwoStars`.
* `>` evaluates to `<=`, and `<` panics: `Comparisons`. `<=` and `>=` leave no token. With nothing between the two
  operands evaluation panics, unless the right operand starts with a `*`, which then multiplies: `LostComparison` gives
  the outcome for all operands, and `x<=*y` is a product: `LostStar`.
* A literal of exactly 32 digits is accepted but evaluates to 0, because the length is copied modulo 32: `LongNumbers`.
* `gen_num` prints a bare `u` for zero, which no rule of the lexer matches: `ZeroOutput`. Evaluator and generator agree
  if and only if no such literal is left in the output: `Generator.Round`.

## Model

| member | source | states |
|---|---|---|
| `KconfigExpr.ComparesExactly` | nemu/tools/kconfig/expr.c:1030-1102 | a logical symbol compares equal to the constant y, m or n exactly when its value is that constant, through the real text comparison |
| `KconfigOrder.NumbersCompare` | nemu/tools/kconfig/expr.c:1030-1102 | int symbols and constants that are written numbers compare by all six relations as those numbers |
| `KconfigOrder.HexesCompare` | nemu/tools/kconfig/expr.c:1017-1020 | hex symbols compare as unsigned numbers |
| `KconfigOrder.MixedCompare` | nemu/tools/kconfig/expr.c:1080-1081 | a hex symbol beside a number: both compare as unsigned 64-bit numbers, negative ones wrapped |
| `KconfigOrder.TristatesCompare` | nemu/tools/kconfig/expr.c:1007-1012 | boolean and tristate symbols compare as n below m below y |
| `KconfigOrder.StringsCompare` | nemu/tools/kconfig/expr.c:1073-1079 | two string symbols, and any two symbols one of which is no number, compare in lexicographic order |
| `KconfigOrder.Connectives` | nemu/tools/kconfig/expr.c:1045-1055 | AND is the smaller and OR the larger value, and NOT turns the scale round |
| `KconfigOrder.SettingsRead` | nemu/tools/kconfig/expr.c:1042-1074 | a symbol has the value or text it is set to, according to its type |
| `Numerals.WholeDecimal` | nemu/tools/kconfig/expr.c:1013-1027 | strtoll and strtoull read a written decimal number with an optional sign back, exactly where it fits |
| `Numerals.WholeHex` | nemu/tools/kconfig/expr.c:1017-1027 | the same for hexadecimal numbers after 0x, also where base 0 finds the prefix |
| `Numerals.LeadingCharacter` | nemu/tools/kconfig/expr.c:1013-1020 | the six blanks of C may precede a number, other characters make it no number |
| `KconfigTransform.TransformPreservesValue` | nemu/tools/kconfig/expr.c:694-849 | expr_transform keeps the value of every expression in every environment |
| `KconfigTransform.TransformIsNormal` | nemu/tools/kconfig/expr.c:694-849 | its result has NOT only above non-constant symbols and no boolean symbol compared with y or n |
| `KconfigTransform.TransformFixedPoints` | nemu/tools/kconfig/expr.c:694-849 | normal forms are exactly its fixed points, and it is idempotent |
| `KconfigTransform.BooleanRules` | nemu/tools/kconfig/expr.c:715-775 | the six comparisons of a boolean with y, m and n become the symbol, its negation, n or y |
| `KconfigEq.EliminateYnPreservesValue` | nemu/tools/kconfig/expr.c:316-397 | folding y and n out of conjunctions and disjunctions keeps the value |
| `KconfigEq.EliminateYnIsYnFree` | nemu/tools/kconfig/expr.c:316-397 | afterwards no y or n is an operand, and trees without such operands are left alone |
| `KconfigEq.CancelWalkCommonFactor` | nemu/tools/kconfig/expr.c:150-219 | cancelling equal leaves leaves both originals as one common factor combined with the remainders |
| `KconfigEq.CancelReflectsOrder` | nemu/tools/kconfig/expr.c:221-241 | order and equality of the remainders carry over to the originals |
| `KconfigEq.EqIsSound` | nemu/tools/kconfig/expr.c:252-303 | expr_eq answers yes only for expressions of equal value in every environment |
| `KconfigEq.EqOptIsSound` | nemu/tools/kconfig/expr.c:252-264 | the same where an absent expression counts as y |
| `KconfigEq.EliminateEqSuperset` | nemu/tools/kconfig/expr.c:221-241 | if cancelling leaves y on the right, the left value never exceeds the right one |
| `KconfigEq.CancelWalkSubtracts` | nemu/tools/kconfig/expr.c:150-219 | on trees without constant operands the walk computes both multiset differences of the operands |
| `KconfigEq.EqIsFlatEquality` | nemu/tools/kconfig/expr.c:252-303 | on trees without constant operands expr_eq decides exactly equality up to grouping and order at every level |
| `KconfigJoin.JoinOrPreservesValue` | nemu/tools/kconfig/expr.c:431-493 | every rule of expr_join_or keeps the value of the disjunction |
| `KconfigJoin.JoinsExactly` | nemu/tools/kconfig/expr.c:431-587 | two operands are joined exactly if they are equal, or under OR two = tests of one tristate with different constants of y, m, n or a boolean and its negation, or under AND two such != tests, = beside != with constants, or a symbol beside =y, !=n or !=m |
| `KconfigJoin.JoinAndPreservesValue` | nemu/tools/kconfig/expr.c:495-587 | every rule of expr_join_and keeps the value of the conjunction unless the constants clash |
| `KconfigJoin.JoinAndExact` | nemu/tools/kconfig/expr.c:495-587 | a conjunction rule is right in every environment if and only if it is not applied to clashing constants |
| `KconfigJoin.JoinAndNeverDrops` | nemu/tools/kconfig/expr.c:495-587 | no rule of expr_join_and ever lowers the value of the conjunction, clashing constants included |
| `KconfigJoin.JoinAndClashes` | nemu/tools/kconfig/expr.c:539-553 | a concrete pair of constants and an environment for which the rule changes the value |
| `KconfigDups.Rewriter.EliminateDups1` | nemu/tools/kconfig/expr.c:596-651 | walking one tree against itself and overwriting leaf pairs never lowers the value, keeps it where no symbol is tested with clashing constants, brings in no new such test, keeps NOT placement, never grows the tree, and joins nothing if and only if no pair below the two slots can be joined |
| `KconfigDups.Rewriter.JoinPair` | nemu/tools/kconfig/expr.c:627-650 | joining two operands in place does the same to the whole tree |
| `KconfigDups.Rewriter.SimplifyOperand` | nemu/tools/kconfig/expr.c:620-625 | so does simplifying inside an operand of the other junction |
| `KconfigDups.Rewriter.EliminateDups` | nemu/tools/kconfig/expr.c:664-686 | the loop terminates, never lowers the value in any environment and keeps it in all of them unless one tristate symbol is tested with clashing constants, restores trans_count, ends with no two operands of a level equal or covered by a rule, shrinks every tree that has such operands and leaves all others alone; clean trees stay clean and end without duplicates |
| `KconfigDups.SettledIsDistinct` | nemu/tools/kconfig/expr.c:584-686 | on expressions without y and n operands no level is left with two operands that are equal up to order and grouping |
| `KconfigDups.NoOperandTwice` | nemu/tools/kconfig/expr.c:584-686 | so every operand occurs once in the multiset of its level |
| `KconfigDups.ClashFreeExact` | nemu/tools/kconfig/expr.c:539-553 | the condition holds if and only if every conjunction rule applied to operands with these tests is right in every environment |
| `KconfigDups.TriConstantsAreClashFree` | nemu/tools/kconfig/expr.c:539-553 | tests with y, m and n alone never clash, so expressions without other quoted constants always keep their value |
| `KconfigDups.ClashesThroughYes` | nemu/tools/kconfig/expr.c:524-553 | two joins turn an expression that is n into y although its own constants m and "2" do not clash |
| `KconfigDups.OperandContribution` | nemu/tools/kconfig/expr.c:596-651 | an operand's slot enters the value of a tree only through the junction of its level |
| `KconfigDups.FoldingShrinks` | nemu/tools/kconfig/expr.c:671-678 | after a join, folding constants strictly shrinks the tree, which bounds the number of passes |
| `KconfigCompare.TransCompareExact` | nemu/tools/kconfig/expr.c:922-985 | expr_trans_compare is y exactly if the expression, collapsed to two values at its leaves, satisfies the comparison |
| `KconfigCompare.TransCompareMeaning` | nemu/tools/kconfig/expr.c:922-985 | where no symbol below a NOT is m, it is y exactly if the value satisfies the comparison with y or n |
| `KconfigCompare.CollapseIsFaithful` | nemu/tools/kconfig/expr.c:922-985 | when collapsing to two values does not lose the comparison |
| `KconfigCompare.CollapseNeverOverstates` | nemu/tools/kconfig/expr.c:922-985 | a collapsed expression that is not n really is not n when NOT stands above symbols only |
| `KconfigCompare.NegatedCompareExact` | nemu/tools/kconfig/expr.c:953-954 | below NOT the rewriting is right in every environment if and only if the symbol is boolean |
| `KconfigCompare.ComparingIsRight` | nemu/tools/kconfig/expr.c:921-985 | on expressions of booleans and on expressions without NOT the comparison with y or n is right in every environment |
| `KconfigCompare.ComparingWithMod` | nemu/tools/kconfig/expr.c:921-985 | comparing with m is right for symbols and comparisons; a conjunction or disjunction is left uncompared |
| `KconfigCompare.DocumentedComparisons` | nemu/tools/kconfig/expr.c:908-920 | the five transformations given as examples come out as written |
| `KconfigCompare.TransBoolKeepsNo` | nemu/tools/kconfig/expr.c:402-426 | expr_trans_bool keeps whether the value is n where no comparison that it replaces stands below a NOT |
| `KconfigCompare.TransBoolBelowNot` | nemu/tools/kconfig/expr.c:402-426 | for every comparison directly below a NOT it does so in every environment if and only if it does not replace the comparison |
| `KconfigCompare.TransBoolIsTestFree` | nemu/tools/kconfig/expr.c:402-426 | it leaves no comparison A!=n of a tristate symbol anywhere, and leaves expressions without one alone |
| `KconfigCompare.RewriteMMeaning` | nemu/tools/kconfig/menu.c:82-105 | rewrite_m replaces every constant m by m && MODULES |
| `KconfigMenu.Deduplicate` | nemu/tools/kconfig/menu.c:356-404 | eliminating duplicates of an optional expression never lowers its value, keeps it unless tests of one symbol clash, and leaves no joinable operands and, on clean expressions, no duplicates |
| `KconfigMenu.Propagate` | nemu/tools/kconfig/menu.c:352-360 | the propagated dependency is never below the conjunction of parent and own dependency, equal to it unless tests of one symbol clash, deduplicated, with NOT only above symbols |
| `KconfigMenu.PropagateToProperty` | nemu/tools/kconfig/menu.c:395-406 | the visibility of a property is n only if that conjunction is; unless tests of one symbol clash, exactly if it is, and equal to it for tristate owners; for other owners no A!=n is left; NOT stays above symbols |
| `KconfigMenu.DependsSymbolIsSound` | nemu/tools/kconfig/expr.c:879-906 | a dependency that depends on a symbol is n whenever the symbol is |
| `KconfigMenu.DependsExactly` | nemu/tools/kconfig/expr.c:879-906 | expr_depends_symbol finds exactly the expressions with one of s, s=y, s=m and s!=n among the operands of the outermost AND |
| `KconfigMenu.NotNo` | nemu/tools/kconfig/menu.c:456-458 | the base dependency of a submenu is "the prompt is not n", normalised: y wherever that holds, and only there unless tests of one symbol clash |
| `KconfigMenu.IsSuperset` | nemu/tools/kconfig/menu.c:480-491 | the test passes exactly if cancelling leaves y; on trees without constant operands exactly if the condition is a conjunction that contains all operands of the base; and then, whenever the condition holds, so does the prompt's, for every condition and every prompt without clashing tests |
| `KconfigEq.SupersetExact` | nemu/tools/kconfig/expr.c:221-241 | on trees without constant operands cancelling leaves y on the right if and only if the left is a conjunction whose operands, up to order and grouping, include all operands of the right |
| `KconfigMenu.IsBehind` | nemu/tools/kconfig/menu.c:471-491 | an item passes exactly if its dependency mentions the symbol and depends on it or absorbs the base, which on trees without constant operands is containing all its operands in an AND; then it depends on the symbol or implies its prompt condition |
| `KconfigMenu.SubmenuLength` | nemu/tools/kconfig/menu.c:456-491 | all items up to the first that does not pass are taken, and no others |
| `KconfigMenu.ExampleSubmenu` | nemu/tools/kconfig/menu.c:471-491 | the item (s OR q) AND r becomes a child of s when the condition of its prompt is r |
| `KconfigMenu.BehindIsVisible` | nemu/tools/kconfig/menu.c:471-491 | a visible item of an automatic submenu, none of whose negated symbols is m, has its symbol set or its prompt visible, if no symbol of the prompt is tested with clashing constants |
| `KconfigMenu.SupersetIgnoresModules` | nemu/tools/kconfig/menu.c:480-491 | an item with m below NOT that is visible while the prompt is not: the test, deduplication included, answers true |
| `KconfigDeps.DepChecker.CheckDeps` | nemu/tools/kconfig/symbol.c:1250-1279 | flags and stack are restored, and an answer is a symbol on a dependency cycle |
| `KconfigDeps.DepChecker.CheckSymDeps` | nemu/tools/kconfig/symbol.c:1165-1211 | without an answer all dependencies of the symbol are finished and cycle-free |
| `KconfigDeps.DepChecker.CheckExprDeps` | nemu/tools/kconfig/symbol.c:1130-1162 | the same for the symbols an expression mentions |
| `KconfigDeps.ValueOfMentions` | nemu/tools/kconfig/symbol.c:1130-1162 | the value of an expression depends on no symbols other than those followed |
| `KconfigDeps.MentionsExactly` | nemu/tools/kconfig/symbol.c:1130-1162 | the symbols followed are those that expr_contains_symbol finds |
| `KconfigDeps.DepsExactly` | nemu/tools/kconfig/symbol.c:1164-1211 | the edges of the graph field by field: direct, reverse and implied dependency, conditions of all properties but select, imply and choice, values of defaults |
| `KconfigDeps.ComparisonCloses` | nemu/tools/kconfig/symbol.c:1146-1155 | A depending on B=C and C depending on A is a cycle |
| `KconfigDeps.DepChecker.CheckAll` | nemu/tools/kconfig/parser.y:514-517 | checking all symbols from cleared flags reports an error if and only if some symbol depends on itself |
| `KconfigDeps.OrderedIsAcyclic` | nemu/tools/kconfig/symbol.c:1250-1279 | symbols that finished in dependency order lie on no cycle |
| `KconfigDeps.PathClosesCycle` | nemu/tools/kconfig/symbol.c:1255-1258 | meeting a flagged symbol again exhibits a cycle through it |
| `KconfigString.UnescapeEscape` | nemu/tools/kconfig/confdata.c:261-281 | reading what sym_escape_string_value wrote, opening quote included, gives the original string, whatever follows the closing quote |
| `KconfigString.ReadString` | nemu/tools/kconfig/confdata.c:261-281 | the opening quote is demanded; then the loop leaves the value in the buffer or reports an unfinished string, and no other memory changes |
| `KconfigString.EscapedSize` | nemu/tools/kconfig/symbol.c:875-893 | the size computed in advance is the length of the result plus one |
| `KconfigString.EscapeStringValue` | nemu/tools/kconfig/symbol.c:875-916 | the text written is the quoted string and fills the buffer exactly |
| `KconfigString.WriteAndRead` | nemu/tools/kconfig/confdata.c:261-281 | writing any string without NUL and reading the line back in place leaves that string in the buffer |
| `KconfigString.UnescapeInPlace` | nemu/tools/kconfig/confdata.c:261-281 | the in-place loop leaves the unescaped string in the line buffer, fails exactly if the closing quote is missing, and writes nowhere else |
| `KconfigString.ReadingDrops` | nemu/tools/kconfig/confdata.c:264-269 | moving the rest of the line over a backslash keeps the loop invariant |
| `Int64.Clzsi2` | abstract-machine/klib/src/int64.c:626-655 | the exact number of leading zeros of every word, 32 for zero |
| `Int64.Ctzsi2` | abstract-machine/klib/src/int64.c:661-695 | the exact number of trailing zeros of every word |
| `Int64.Ctzdi2` | abstract-machine/klib/src/int64.c:703-709 | the same for 64 bits |
| `Int64.Clzdi2` | abstract-machine/klib/src/int64.c:711-717 | the same for 64 bits |
| `Int64.TrailingZerosMeaning` | abstract-machine/klib/src/int64.c:661-695 | a nonzero word is an odd number shifted left by its trailing zeros |
| `Int64Div.Udivmoddi4` | abstract-machine/klib/src/int64.c:412-620 | for every dividend and nonzero divisor the exact quotient and remainder |
| `Int64Div.AlignAndDivide` | abstract-machine/klib/src/int64.c:536-589 | every initialisation shifts the dividend so that the loop's remainder starts below the divisor |
| `Int64Div.DivideLoop` | abstract-machine/klib/src/int64.c:597-620 | the shift-subtract loop ends with quotient and remainder |
| `Int64Div.DivideStep` | abstract-machine/klib/src/int64.c:598-615 | one round keeps: quotient bits so far times divisor plus remainder make up the consumed dividend |
| `Int64Div.SignTest` | abstract-machine/klib/src/int64.c:612-614 | the sign of d - r - 1 modulo 2^64 decides r >= d whenever r can occur, divisors above 2^63 included |
| `Int64Div.DivideByHigh` | abstract-machine/klib/src/int64.c:559-589 | the cases in which both halves of the divisor matter |
| `Int64Div.DivideByLow` | abstract-machine/klib/src/int64.c:510-558 | the cases of a divisor of one word |
| `Int64Div.DivideByPowerOfTwo` | abstract-machine/klib/src/int64.c:516-526 | division by a power of two by shifting |
| `Int64Signed.TruncLaws` | abstract-machine/klib/src/int64.c:355-390 | truncated division: a = q b + r, r smaller than b in magnitude and with the sign of a |
| `Int64Signed.WordRoundTrip` | abstract-machine/klib/src/int64.c:355-390 | every 64-bit word is one signed number in two's complement and back |
| `Int64Signed.Divdi3` | abstract-machine/klib/src/int64.c:355-365 | the truncated quotient wrapped to 64 bits, exact if and only if not INT64_MIN / -1 |
| `Int64Signed.Moddi3` | abstract-machine/klib/src/int64.c:379-390 | the truncated remainder |
| `Int64Signed.Divmoddi4` | abstract-machine/klib/src/int64.c:369-375 | both at once |
| `RvTables.GenLut` | abstract-machine/tools/minirv/gen-lut.c:10-24 | the generated file holds at every offset the byte the macros expect there |
| `RvTables.GenByteTable` | abstract-machine/tools/minirv/gen-lut.c:10-21 | a 256 by 256 table of one bitwise operation |
| `Bits.BitOfBitwise` | abstract-machine/tools/minirv/gen-lut.c:19-21 | each bit of such a result is the and, or, or exclusive or of the two operand bits |
| `Bits.BitwiseSums` | abstract-machine/tools/minirv/gen-lut.c:19-21 | for all words, or plus and is the sum, and exclusive or plus twice and is the sum |
| `RvTables.GenWordTable` | abstract-machine/tools/minirv/gen-lut.c:10-24 | a 32 by 256 table of shifted words, little endian |
| `RvScratch.LaIs` | abstract-machine/tools/minirv/inst-replace.h:605-608 | lui and addi with %hi and %lo load every address exactly |
| `RvBasic.SlliWorks` | abstract-machine/tools/minirv/inst-replace.h:526-552 | slli by every amount |
| `RvBasic.MsbWorks` | abstract-machine/tools/minirv/inst-replace.h:117-126 | the sign bit of every word |
| `RvBasic.NotWorks` | abstract-machine/tools/minirv/inst-replace.h:629-657 | the complement, with gp restored |
| `RvBasic.SubWorks` | abstract-machine/tools/minirv/inst-replace.h:110-115 | subtraction modulo 2^32 |
| `RvLogic.LogicOfBytes` | abstract-machine/tools/minirv/gen-lut.c:19-21 | a 32-bit logical operation acts byte by byte |
| `RvLogic.LogicWorks` | abstract-machine/tools/minirv/inst-replace.h:165-211 | and, or and xor are right whenever the macro does not abort |
| `RvLogic.LogicAssembles` | abstract-machine/tools/minirv/inst-replace.h:176-187 | the macro assembles exactly for x0 as destination, or without sp, gp and tp apart from tp as second operand |
| `RvCompare.TablesDecide` | abstract-machine/tools/minirv/inst-replace.h:49-63 | the two eight-entry tables decide signed and unsigned order from three sign bits, for all operands |
| `RvCompare.SltWorks` | abstract-machine/tools/minirv/inst-replace.h:128-163 | slt and sltu, whatever registers are named |
| `RvCompare.SeqWorks` | abstract-machine/tools/minirv/inst-replace.h:213-247 | equality by marking and clearing entries of _check_same_array |
| `RvCompare.SeqzWorks` | abstract-machine/tools/minirv/inst-replace.h:249-273 | comparison with zero |
| `RvCompare.SeqzExact` | abstract-machine/tools/minirv/inst-replace.h:255-273 | seqz is right if and only if rd is not s0, or s0 holds the answer already |
| `RvCompare.SeqExact` | abstract-machine/tools/minirv/inst-replace.h:226-247 | seq is right if and only if rd is neither s0 nor s1, or holds the answer already |
| `RvCompare.SeqzIntoSp` | abstract-machine/tools/minirv/inst-replace.h:255-273 | seqz with rd = sp sets sp and then loads s0 from below the new stack pointer |
| `RvShiftMath.SllOfBytes` | abstract-machine/tools/minirv/inst-replace.h:392-430 | adding the four shifted table entries modulo 2^32 shifts the word |
| `RvShiftMath.ByteSums` | abstract-machine/tools/minirv/inst-replace.h:463-502 | the byte additions of the right shifts are the bytes of the shifted word, so none carries |
| `RvShiftMath.SraOfParts` | abstract-machine/tools/minirv/inst-replace.h:463-513 | tail and sign-extended top entry add up to the arithmetic shift |
| `RvShiftMath.ShiftsMean` | abstract-machine/tools/minirv/gen-lut.c:22-24 | the three shifts are multiplication by a power of two modulo 2^32, and unsigned and signed division rounding down |
| `RvShift.GetShamtWorks` | abstract-machine/tools/minirv/inst-replace.h:384-390 | the low five bits, through a row of the and table |
| `RvShift.SllWorks` | abstract-machine/tools/minirv/inst-replace.h:392-430 | sll for all operands |
| `RvShiftRight.RightWorks` | abstract-machine/tools/minirv/inst-replace.h:432-523 | srl and sra for all operands |
| `RvShiftRight.RightImmWorks` | abstract-machine/tools/minirv/inst-replace.h:432-562 | srli and srai for all amounts, the fast path for 24 included |
| `RvMemory.LbWorks` | abstract-machine/tools/minirv/inst-replace.h:570-576 | lb sign-extends the byte in memory |
| `RvMemory.LbIntoSp` | abstract-machine/tools/minirv/inst-replace.h:570-576 | with sp as destination the loaded byte is stored 13 below its own value and sp is read from there; memory outside what macros may overwrite is kept if and only if that address lies inside it or already held the byte |
| `RvMemory.LhuWorks` | abstract-machine/tools/minirv/inst-replace.h:578-585 | lhu loads the half word, also when rd is the base register |
| `RvMemory.LhWorks` | abstract-machine/tools/minirv/inst-replace.h:587-595 | lh sign-extends it |
| `RvMemory.ShWorks` | abstract-machine/tools/minirv/inst-replace.h:597-601 | sh writes both bytes and no other memory outside slot C |
| `RvBranch.ResolveWorks` | abstract-machine/tools/minirv/inst-replace.h:277-296 | the flag in tp selects the target or the next instruction |
| `RvBranch.TestWorks` | abstract-machine/tools/minirv/inst-replace.h:299-382 | for all six conditions, the special cases for x0 included, flag and selector agree with the comparison |
| `RvBranch.BranchWorks` | abstract-machine/tools/minirv/inst-replace.h:299-382 | before its jump a branch has the address in tp that the comparison asks for |
| `RvSimulate.ReplaceSimulates` | nemu/src/isa/riscv32/inst.c:78-126 | every replaced instruction and its macro lead from simulated states to simulated states: all registers but gp and tp and all memory but dead scratch space and _check_same_array agree; only macros that use scratch slots need room below the stack pointer |
| `RvSimulate.OrdinaryAssembles` | abstract-machine/tools/minirv/inst-replace.h:176-187 | every instruction that names none of sp, gp and tp has a replacement |
| `RvSimulate.OrdinaryIsLegal` | abstract-machine/tools/minirv/inst-replace.h:5-11 | and is covered, except s0 as destination of seqz and shift amounts of more than five bits |
| `RvSimulate.SimStarts` | abstract-machine/tools/minirv/inst-replace.h:5-11 | any state with the tables loaded is a starting point of the simulation, whatever its stack pointer is |
| `RvProgram.StepSimulates` | abstract-machine/tools/minirv/inst-replace.h:92-108 | the same for every line of a program, branches, jal and jalr included, with the program counter at the line's address |
| `RvProgram.RunSimulates` | abstract-machine/tools/minirv/inst-replace.h:1-11 | every run of a label-level program that respects the stated assumptions is simulated by the assembled image |
| `RvProgram.OnlyScratchDies` | abstract-machine/tools/minirv/inst-replace.h:5-11 | the memory that a run may leave different is confined to the 28 bytes below the stack pointer at lines whose code uses scratch slots |
| `RvProgram.StoresRevive` | abstract-machine/tools/minirv/inst-replace.h:597-601 | what the program itself stores agrees again afterwards |
| `RvProgram.ImageSize` | abstract-machine/tools/minirv/inst-replace.h:277-296 | the address of every label is where its code is |
| `Decode.PatternDecode` | nemu/include/cpu/decode.h:31-60 | panics exactly on 64 characters or an illegal one, otherwise key, mask and shift of the pattern's bits |
| `Decode.DecodeMatches` | nemu/include/cpu/decode.h:90-97 | the shifted and masked comparison succeeds if and only if the word agrees with the pattern |
| `Decode.AgreesBitByBit` | nemu/include/cpu/decode.h:31-60 | agreement is: every 0 and 1 equals its bit |
| `Decode.InstPat` | nemu/include/cpu/decode.h:90-97 | from the pattern string to the decision |
| `RiscvTable.TreeFinds` | nemu/src/isa/riscv32/inst.c:77-164 | four fields of a word determine the only pattern it can agree with |
| `RiscvTable.OneMatch` | nemu/src/isa/riscv32/inst.c:77-164 | no word matches two patterns before the catch-all |
| `RiscvTable.FirstIsOnly` | nemu/src/isa/riscv32/inst.c:77-166 | a row of any table of these patterns is the first match if and only if it is in the table and matches |
| `RiscvTable.OrderIsIrrelevant` | nemu/src/isa/riscv32/inst.c:77-166 | every order of the same rows finds the same row for every word |
| `RiscvEncoding.RowMatchesExactly` | nemu/src/isa/riscv32/inst.c:77-164 | a row matches a word if and only if its opcode and the other fields that the manual fixes for the instruction have the values given there |
| `SdbExpr.CheckParentheses` | nemu/src/monitor/sdb/expr.c:203-218 | the loop decides what the recursive definition of nesting says, panics included |
| `SdbExpr.FindOpPosition` | nemu/src/monitor/sdb/expr.c:220-235 | for every token list the loop finds the last token of lowest precedence outside parentheses, which is inside the list |
| `SdbExpr.LastLowestIsOne` | nemu/src/monitor/sdb/expr.c:220-235 | a list has only one such token |
| `SdbExpr.ScanMeaning` | nemu/src/monitor/sdb/expr.c:220-235 | the counter of the scan is the number of open parentheses, also on unbalanced lists, and its choice is that token |
| `SdbExpr.EvalTokens` | nemu/src/monitor/sdb/expr.c:237-293 | the recursion over token positions terminates and computes the value of the token list |
| `SdbPrint.MainOpIsRoot` | nemu/src/monitor/sdb/expr.c:220-235 | the operator found in a printed tree is the one at its root |
| `SdbPrint.BinIsNotSurrounded` | nemu/src/monitor/sdb/expr.c:203-218 | an operation is never mistaken for a parenthesised expression |
| `SdbLex.MakeToken` | nemu/src/monitor/sdb/expr.c:105-201 | the loop produces the tokens of the first matching rules, longest matches, or fails as it does |
| `SdbLex.LexAtom` | nemu/src/monitor/sdb/expr.c:113-143 | a literal ends exactly where an operator, a parenthesis or a space begins |
| `SdbLex.LexBlanks` | nemu/src/monitor/sdb/expr.c:120-144 | up to 32 spaces leave no token and do not change what follows |
| `SdbPrint.LexSpread` | nemu/src/monitor/sdb/expr.c:105-201 | the text of a tree, with any up to 32 spaces before each token and whatever delimiter follows, has the tree's tokens, a leading * being a product exactly behind a token of precedence above 5, such as ( |
| `SdbPrint.CountIsTokens` | nemu/src/monitor/sdb/expr.c:105-201 | the places for spaces are numbered by the tokens |
| `SdbExpr.EvaluateText` | nemu/src/monitor/sdb/expr.c:295-305 | lexing and evaluating as expr does |
| `SdbPrint.EvalPrinted` | nemu/src/monitor/sdb/expr.c:105-305 | the text of every tree over + - * / == && > < and unary *, printed with the parentheses that precedence and left associativity need and any up to 32 spaces between tokens, evaluates to the tree's value modulo 2^32, except that it panics when there is a < or a unary * stands directly after ( |
| `SdbPrint.EvalPrintedExact` | nemu/src/monitor/sdb/expr.c:151-158 | it evaluates to its value in every environment if and only if no unary * stands directly after ( |
| `SdbMeaning.GrammarIsC` | nemu/src/monitor/sdb/expr.c:58-76 | the printed trees are exactly those of the grammar of section 6.5 of the C standard over these operators, so precedence and associativity are those of C |
| `SdbMeaning.OperatorsMean` | nemu/src/monitor/sdb/expr.c:274-290 | each operator by its defining property: + - * congruent modulo 2^32, / the quotient with remainder or the dividend for a zero divisor, == and && truth values, > the truth of <= |
| `SdbMeaning.PolynomialsEvaluate` | nemu/src/monitor/sdb/expr.c:237-293 | the text of every tree over + - * evaluates to its value in unbounded integers modulo 2^32 |
| `SdbMeaning.HexLiteral` | nemu/src/monitor/sdb/expr.c:249-251 | a hexadecimal literal is the number written, modulo 2^32 |
| `SdbMeaning.DecimalLiteral` | nemu/src/monitor/sdb/expr.c:249-251 | so is a decimal one |
| `SdbMeaning.OctalLiteral` | nemu/src/monitor/sdb/expr.c:249-251 | and one with a leading 0 is octal |
| `SdbMeaning.DigitsEnd` | nemu/src/monitor/sdb/expr.c:249-251 | digits are read up to the first character that is none in the base |
| `SdbMeaning.RegistersEvaluate` | nemu/src/monitor/sdb/expr.c:251-258 | $name evaluates to the program counter, the register, or 0 where there is none |
| `SdbMeaning.LiteralsExactly` | nemu/src/monitor/sdb/expr.c:40-55 | the literals below 32 characters are exactly digits with an optional u, 0x with hexadecimal digits, and $ with one or two letters and up to two digits |
| `SdbMeaning.TooManySpaces` | nemu/src/monitor/sdb/expr.c:117-119 | a run of more than 32 spaces panics |
| `SdbMeaning.LongNumbers` | nemu/src/monitor/sdb/expr.c:117-143 | more than 32 digits panic, and exactly 32 evaluate to 0 because none is copied |
| `SdbPrint.StarInParens` | nemu/src/monitor/sdb/expr.c:151-158 | (*x) panics for every literal x |
| `SdbPrint.TwoStars` | nemu/src/monitor/sdb/expr.c:151-158 | **x is 0 for every literal x |
| `SdbPrint.Comparisons` | nemu/src/monitor/sdb/expr.c:274-290 | l > r evaluates to whether l <= r, and l < r panics, for all printed operands |
| `SdbLost.Juxtaposed` | nemu/src/monitor/sdb/expr.c:203-290 | two printed expressions with no operator between them panic, whatever their operators |
| `SdbLost.GraftTokens` | nemu/src/monitor/sdb/expr.c:151-158 | where the second starts with a *, their tokens are those of one tree in which that * multiplies, regrouped by precedence |
| `SdbLost.LostComparison` | nemu/src/monitor/sdb/expr.c:105-305 | l <= r and l >= r panic for all printed l and r unless r starts with a *, and then evaluate to the value of that tree |
| `SdbLost.LostStar` | nemu/src/monitor/sdb/expr.c:151-158 | x<=*y is the product of x and y for all literals |
| `GenExpr.CntNum` | nemu/tools/gen-expr/gen-expr.c:36-43 | the number of decimal digits, none for zero |
| `GenExpr.PrintNum` | nemu/tools/gen-expr/gen-expr.c:45-60 | the decimal digits, most significant first |
| `GenExpr.NumberRoundTrip` | nemu/tools/gen-expr/gen-expr.c:45-60 | a printed literal other than zero is read back as the number |
| `GenExpr.ZeroStopsLexing` | nemu/tools/gen-expr/gen-expr.c:45-60 | a zero literal anywhere in the output stops the lexer |
| `GenExpr.TextShowsZero` | nemu/tools/gen-expr/gen-expr.c:45-60 | the output holds a zero literal exactly if it holds a u without a digit before it |
| `GenExpr.ZeroOutput` | nemu/tools/gen-expr/gen-expr.c:45-60 | the output for a single zero is u, to which the evaluator has no answer |
| `GenExpr.Generator.GenRandExpr` | nemu/tools/gen-expr/gen-expr.c:90-128 | the characters appended are the text of an expression of which, unless a literal is zero, the returned number is the value, also after the divide-by-zero rewind |
| `GenExpr.Generator.Round` | nemu/tools/gen-expr/gen-expr.c:138-142 | for all random choices, lexing and evaluating the output gives the generator's number if and only if no u lacks a digit before it |
| `CacheSim.LineIsBlock` | npc/tools/cachesim/cachesim.cpp:32-39 | set and tag together identify the memory block |
| `CacheSim.InsertRetains` | npc/tools/cachesim/cachesim.cpp:69-82 | a set that saw no more tags than it has ways loses none |
| `CacheSim.CountStep` | npc/tools/cachesim/cachesim.cpp:57-90 | misses stay at least the distinct lines, and equal to them while no set overflows |
| `CacheSim.Cache.Access` | npc/tools/cachesim/cachesim.cpp:57-90 | keeps: valid ways are a prefix with different tags; a hit is on a line accessed earlier |
| `CacheSim.Simulate` | npc/tools/cachesim/cachesim.cpp:46-91 | for every trace and every victim choice: hits and misses add up, misses are at least the distinct lines, with equality when no set sees more tags than ways |
| `Watchpoint.Pool.NewWp` | nemu/src/monitor/sdb/watchpoint.c:23-35 | the first free node becomes the head of the active list |
| `Watchpoint.Pool.FreeWp` | nemu/src/monitor/sdb/watchpoint.c:41-64 | exactly the given active node moves to the free list |
| `Watchpoint.Pool.Add` | nemu/src/monitor/sdb/sdb.c:122-134 | the new number is one more than the newest |
| `Watchpoint.Pool.Delete` | nemu/src/monitor/sdb/sdb.c:136-159 | deletes the one watchpoint with the number, or nothing |
| `Watchpoint.NumberIsUnique` | nemu/src/monitor/sdb/sdb.c:149-155 | a number names at most one active watchpoint |
| `Watchpoint.LinksUnlink` | nemu/src/monitor/sdb/watchpoint.c:53-60 | relinking around a node leaves a list of all others |
| `Watchpoint.PoolIsConserved` | nemu/src/monitor/sdb/watchpoint.c:66-75 | active and free nodes are together the whole pool |
| `Watchpoint.PlayDescends` | nemu/src/monitor/sdb/sdb.c:122-159 | after any commands the active numbers strictly decrease |
| `Watchpoint.Session` | nemu/src/monitor/sdb/sdb.c:122-159 | any sequence of commands leaves the active numbers that the abstract list of numbers predicts, and aborts exactly when it does |

## Left out

- The Kconfig copies under npc/tools/kconfig repeat the modelled files.
- expr_transform, expr_eliminate_yn and expr_eliminate_eq are modelled on values: the reuse and freeing of tree nodes is not captured. expr_eliminate_dups, where aliasing matters, is modelled as updates of slots of one tree.
- sym_calc_value, choices and the parser: an arbitrary environment stands for symbol values.
- KconfigDeps.DepChecker.CheckDeps: does not model choice symbols and choice values (sym_check_choice_deps), whose flags are set for a whole group at once; the printing of the cycle is left out too.
- KconfigDeps.DepChecker.CheckSymDeps: does not model that defaults of a choice symbol are skipped.
- KconfigDeps.DepChecker.CheckAll: is exact for symbols outside choices.
- Kconfig front ends, files and shell calls.
- minirv: auipc, fence, the M extension and CSR instructions, which have no macro; code is kept apart from data memory, so self-modifying programs are not covered.
- RvProgram.RunSimulates: assumes, as the macro file does, that programs use neither gp nor tp, leave the 28 bytes below the stack pointer alone when they use a macro with scratch slots, and do not load what macros left behind.
- RvCompare.SeqWorks: excludes rd in {s0, s1, sp}, because the macro restores s0 and s1 through sp after writing rd; SeqExact states what happens for s0 and s1.
- RvCompare.SeqzWorks: excludes rd in {s0, sp} for the same reason; SeqzExact and SeqzIntoSp state what happens there.
- RvMemory.LbWorks: excludes rd = sp, because the macro addresses its scratch slot through sp after writing rd; LbIntoSp states what happens there.
- The POSIX regex library: each rule of make_token is modelled as the longest match of its own expression. The limit of 65536 tokens is not modelled.
- SdbPrint.EvalPrinted: leaves out a unary * on a unary * (TwoStars states what happens to literals) and literals of 32 or more characters (LongNumbers has the decimal ones); SdbLost.LostComparison has <= and >= at the top of an expression, not inside one.
- The size limit of the generator's buffer.
- Watchpoint.Pool.Add: does not model overflow of the int counter after 2^31 additions, nor the expression text and last value.
- The widths of the cache simulator are parameters with at most 2^32 sets; reading the trace file and printing are not modelled.
- Devices, difftest, traps, other instruction sets, and the rest of klib.
