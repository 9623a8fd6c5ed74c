# A verified model of the factor engine

The factor engine evaluates rule expressions such as `user.age >= 18 && !contains(user.tags, "blocked")`
over the values of factors. An expression goes from text to tokens, to a syntax tree, to a typed bound
tree, to folded constants, to bytecode, and is run by a stack machine; compile caches sit around that
pipeline, and a thrift reader supplies the types of remote factors. This project models those parts in
Dafny and proves what they are for.

`dafny verify dfyconfig.toml` checks everything.

## What is proved

**Three evaluators, one meaning.** The engine has a walker over syntax trees (`Interpreter.EvalExpr`), an
evaluator of bound trees (`Bound.Eval`) and a machine that runs bytecode (`VirtualMachine.BytecodeVM`).
`docs/factorengine-technical-design.md:911` names a difference between bytecode and interpretation as the
project's high risk. `Pipeline.RuleMeansInterpreter` says when there is none, for every source text, every
context and every budget (a budget error is left only where the folded tree does not fit the budget), and
`Pipeline.RunRule` goes from a text to its value. They rest on

* `Interpreter.BoundAgrees`, with the exact condition under which a reference means the same to both
  interpreters (`ReferenceExact`, `RootExact`), asked only of references that evaluation reaches;
* `Folding.FoldPreserves`, for all trees, including constants that fail and operands never reached;
* `Simulation.Simulate`, a forward simulation of generated code under step and stack budgets and a deadline, and
  `Correctness.CompiledMeansStored`, which holds for every tree and every earlier content of the pools,
  without conditions;
* `Peephole.OptimizedExecutes`, for arbitrary programs with jumps in any direction and to anywhere; and
  `OnePassExact`, which says exactly when a second pass would still remove something.

The code and the design document disagree in two places, and both are proved, with the condition that
avoids them. The generated code of `&&` and `||` leaves a right operand as it is while the interpreters
turn it into a boolean: `!(f.a && f.b)` with `f.b` missing is true when interpreted and false when compiled
(`NullRightOperandDiverges`). A null does no harm where a value is only tested, by the jump of an operator
or of a condition, so that `f.a && f.b && f.c` may have `f.b` missing, but not `f.c`: `Bound.BoolRights`
follows what is only tested, `ShortCircuitExact` says exactly when the two differ, `CompiledMeansTest` is the
equivalence for rules of which only the truth is asked, and `SafeRightsSuffice` gives a check on the tree
that rules differences out. The constant pool's key forgets the kinds of numbers inside lists and maps: in
`f.c ? [1] : [1.0]` both lists become the same constant (`SharedConstantDiverges`). `Pools.InternExact` says
exactly when the pool hands back another constant than it was asked for, and `ConstantsExact` when all
constants of a program are those of its tree.

**What rules mean.** The evaluators share the operations on values, and parser and printer the levels of
operators, so their agreement alone would not say what these are. That is said by laws that do not look at
how they are computed. `RuleLaws` has the connectives, conditionals and built-ins, on rules: `exists` is
false exactly on null, `in` over more candidates is a disjunction, `contains` of a string means that the
string is something, the item, and something, `get` from a map literal is what was last written under the
key. `OperatorLaws` has order, equality, wrap-around arithmetic, negation, and `MixedArithmetic` and
`MixedComparison`, by which it makes no difference whether a number is whole or a double on which the
operations are exact. A reference finds a value exactly if a chain of map entries along its path leads there
(`Paths.ReferenceFinds`, `AccessorFinds`). The root of a chain of operators is the last one of the loosest
class in it (`Grouping.ChainParses`), whatever white space is in the text (`Tokenizer.WhiteSpaceIgnored`);
so `1+2*3` is seven. A program yields a value exactly if a sequence of steps within the limits leads to it,
and each instruction replaces its operands by one value that depends on nothing below them (`MachineLaws`).

**Types.** A checked expression evaluates, in a context that conforms to the factor schemas, to null or a
value of its type, and fails only in a division by zero or in a `get` (`Typing.CheckedIsSafe`). The same
holds of the compiled program, of all rules, whatever reads the numbers, and also where it and the
interpreter differ (`Pipeline.RuleIsSafe`). This needs a condition on conditionals, because the checker
keeps the left arm's field schema for both: `MixedMapsUnsound` is an accepted expression of type INT that
evaluates to a string. The condition is exact: `f.c ? f.l : f.r` is safe in all conforming contexts if and
only if it holds (`ChoiceExact`). The checker also refuses nothing without need: it accepts exactly the
trees whose references resolve and in which no operation can meet values of the checked types that it has no
meaning for, with conditions of their own on equality, arms, elements and containers
(`Acceptance.BindExact`). Whether one schema's values are among another's is decided exactly
(`SubfieldSound`, `SubfieldComplete`). All of this is stated twice over, by the parameter `deep`: with lists
as the checker uses them, any list of a LIST field, and with lists whose elements have the element type that
it records.

**Text.** The precedence-climbing parser inverts a printer that writes only the parentheses precedence asks
for (`ParserInvertsPrinter`); no token sequence for the same tree is shorter (`PrinterMinimal`); the
tokenizer inverts writing tokens with spaces between them (`TokenizerInvertsRender`), so that writing a tree
and parsing the text gives the tree back (`TextRoundTrip`), for exactly the trees that some text parses to
(`ParserRange`). `PrinterMinimal` and `ParserRange` assume of the number library that a double read from a
number with a point can be shown as one and read back (`FaithfulNumbers`).

**Caches.** The least-recently-used cache, over a map and a list of shared elements, refines a list of items.
It returns only what was stored last, a larger cache holds whatever a smaller one holds (`Inclusion`,
`MoreRoomMoreHits`), and without deletions an item is evicted exactly when as many distinct other keys were
used as there is room for (`Retention`). The two-level cache over a working store is a map whose entries
expire, whatever the local cache evicts (`RefinesExpiringMap`); with several instances over a store that
fails at will, a hit is still something some instance stored and that has not expired (`BoundedStaleness`),
and a dropped key stays dropped (`DroppedStaysGone`). Compiled programs survive storing
(`ProgramRoundTrip`).

**Cache keys.** A compilation is cached under its text, `::` and the fingerprint of the registry.
`CachedRuleCompiler.Compile` is specified for all requests and all caches: it answers from the cache or
compiles and stores. All answers of all sessions on a cache that starts empty are right if and only if the
requests are interchangeable, which means that requests with the same key have the same products
(`SessionsExact`). They are if the definitions are plain, without delimiters in names and codes, and either
all texts are known to parse or no fingerprint holds `::` (`AdmissibleInterchangeable`). For then equal keys
mean the same text over the same definitions, but for the order of dependencies (`CompileKeyExact`):
fingerprints can be read back (`FingerprintInjective` for schemas, `RegistryFingerprintExact` for
registries, also if mappings hold delimiters inside quotes), a text that parses never parses with a colon
and anything else behind it (`ColonEnds`), and so keys part at one place only (`ParsedTextsSplit`,
`SealedSplit`). Without the conditions it goes wrong: `FieldNameConfuses` is a rule that compiles over one
registry and not over another with the same key, `ConfusedAnswer` is what the cache then answers, and
`FactorCodeConfuses` gives two texts, of which one parses, the same key.

**Thrift structs.** Expanding structs in place, by a recursion that mutates its tables and swallows errors,
terminates, succeeds for all structs exactly if references are closed and acyclic, and then yields the one
table in which every struct is what its fields say, in whatever order the structs are met.

## How the model is built

Objects whose methods update their fields are classes here (`BytecodeCompiler`, `CodeBuffer`, `BytecodeVM`,
`ExpressionParser`, `LruProgramCache`, `ProgramStore`, `PersistentProgramCache`, `CachedRuleCompiler`,
`StructResolver`); each method is proved against a function or relation on values, and the theorems are about
those. A context that is cancelled is one that is found cancelled after some number of instructions. Slices
that the source appends to are sequences, built from the left. What the source leaves to libraries is a
parameter: operations on doubles (`FloatOps`), reading and showing doubles (`NumberSyntax`), the clock (an
argument of each cache operation) and the failures of the program store (`Faults`).

Some proofs carry the functions they are about as fields of a value (`Simulation.Machine`, `Printer.Reader`,
`Minimality.Gauge`, `Peephole.Twin`), so that the verifier looks inside them only where a step needs it.

## Model

| member | source | states |
|---|---|---|
| OperatorLaws.ComparisonsAgree | factorengine/evaluator.go:511-594 | on whole numbers of any kind and on strings exactly one of `<`, `==`, `>` holds, and `<=`, `>=`, `!=` are the complements |
| OperatorLaws.ComparisonsTransitive | factorengine/evaluator.go:511-572 | on them `<` and `<=` are transitive, and strict as soon as one of the two steps is |
| OperatorLaws.ComparisonsMirror | factorengine/evaluator.go:511-572 | exchanging the operands exchanges `<` with `>` and `<=` with `>=`, on all values and also where comparing fails |
| OperatorLaws.NullCompares | factorengine/evaluator.go:511-514 | every ordered comparison with null is false, and only null equals null |
| OperatorLaws.ComparisonFails | factorengine/evaluator.go:515-537 | the operand kinds on which an ordered comparison is a type error, both directions |
| OperatorLaws.EqualitySymmetric | factorengine/evaluator.go:574-594 | equality is symmetric and never holds for containers |
| OperatorLaws.WrapsExactly | factorengine/evaluator.go:619-625 | integer sums, differences and products yield the int64 congruent to the exact result, and the exact result if it fits |
| OperatorLaws.DividesExactly | factorengine/evaluator.go:619-632 | integer division fails exactly by zero and truncates toward zero; only the least number by -1 wraps |
| OperatorLaws.NegatesTwice | factorengine/evaluator.go:168-196 | negating twice gives every integer back |
| OperatorLaws.NegatesExactly | factorengine/evaluator.go:181-192 | the negation of a whole number, added to it, is a multiple of two to the 64th; it is what subtracting from zero gives, in the number's own kind |
| OperatorLaws.UnaryExact | factorengine/evaluator.go:168-196 | where `-` is null, where the unary operators fail, and which value `!` turns into which |
| OperatorLaws.StringLessExact | factorengine/evaluator.go:515-572 | a string is less than another if, behind what they share, it ends first or has the smaller character |
| OperatorLaws.ComparesBySize | factorengine/evaluator.go:511-572 | `<` on whole numbers is by size and on strings by their order |
| OperatorLaws.EqualityExact | factorengine/evaluator.go:574-594 | without doubles, values are equal exactly if they are the same null, boolean or string, or whole numbers of the same size |
| OperatorLaws.ArithmeticExact | factorengine/evaluator.go:596-650 | where arithmetic is null, where it fails and how, and the kind of its results |
| OperatorLaws.MixedArithmetic | factorengine/evaluator.go:596-688 | where doubles are exact, it makes no difference to the result which operands are doubles |
| OperatorLaws.MixedComparison | factorengine/evaluator.go:511-688 | the same for comparisons and for division by zero |
| RuleLaws.ConjunctionExact | factorengine/evaluator.go:249-262 | `&&` is true exactly if both operands are; a left operand that is not true decides, whatever the right one does |
| RuleLaws.DisjunctionExact | factorengine/evaluator.go:264-277 | `\|\|` is true exactly if a reached operand is |
| RuleLaws.DeMorgan | factorengine/evaluator.go:168-277 | on booleans, `!` turns `&&` and `\|\|` into each other, errors included |
| RuleLaws.ConditionalExact | factorengine/evaluator.go:211-220 | a conditional is its first arm if the condition is true and its second if it is anything else |
| RuleLaws.MinusMeans | factorengine/evaluator.go:181-192 | a minus in front of a whole number is the number subtracted from zero, in its own kind |
| RuleLaws.ExistsExact | factorengine/evaluator.go:457-459 | `exists` is false exactly on null |
| RuleLaws.IsEmptyExact | factorengine/evaluator.go:440-455 | `isEmpty` is true exactly on null, the empty string, the empty list and the empty map |
| RuleLaws.InOne | factorengine/evaluator.go:461-469 | `in` with one candidate is `==` |
| RuleLaws.InSplits | factorengine/evaluator.go:461-469 | `in` over more candidates is the disjunction of `in` over some and `in` over the rest |
| RuleLaws.ContainsIsIn | factorengine/evaluator.go:471-491 | `contains` of a list is `in` over its items |
| RuleLaws.ContainsList | factorengine/evaluator.go:471-491 | `contains` of any value that is a list: some item equals the other argument |
| RuleLaws.ContainsText | factorengine/evaluator.go:471-491 | `contains` of a string: it is something, the item, and something; of anything else it is false |
| RuleLaws.GetFails | factorengine/evaluator.go:493-509 | `get` fails exactly if its container is no map or its key no string |
| RuleLaws.GetFromLiteral | factorengine/evaluator.go:493-509 | `get` from a map literal is what was last written under the key, or null |
| Schema.ResolveSchemaPath | factorengine/schema.go:46-64 | the loop along a path finds what the recursive descent through object schemas finds, or its error |
| Schema.AccessorGet | factorengine/accessor.go:37-65 | the loop over the steps computes the access function, with the special first step `value` |
| Paths.ReferenceFinds | factorengine/evaluator.go:10-39 | a reference with a path finds a value exactly if a chain of map entries along the path leads from the factor to it, and is null if there is none |
| Paths.BareReferenceFinds | factorengine/evaluator.go:10-25 | without a path it is the entry `value` of a map that has one, and the factor's value otherwise |
| Paths.AccessorFinds | factorengine/accessor.go:16-65 | the same for compiled accessors, with their special leading step `value` |
| Paths.SchemaAtExact | factorengine/schema.go:46-64 | a path has a field schema exactly if a chain of object fields along it leads there |
| Paths.ReferenceAccepted | factorengine/schema.go:5-64 | which references are accepted, and with which field: what the factor declares along the path, or its only field `value` |
| Interpreter.Resolve | factorengine/evaluator.go:10-39 | the loop over the path computes what a reference resolves to |
| Interpreter.ReferenceExact | factorengine/accessor.go:16-65 | a compiled accessor and the interpreter's lookup agree on a reference exactly under the stated condition on the factor's value |
| Interpreter.RootExact | factorengine/binder.go:462-485 | the same for a whole factor used as the container of `get` |
| Interpreter.BoundAgrees | factorengine/evaluator.go:57-150 | walking the syntax tree and evaluating what the binder made of it give the same value or the same error, for every accepted expression in which the references that evaluation reaches agree |
| Typing.SubfieldSound | factorengine/binder.go:640-663 | every value of a narrower field schema is a value of the wider one |
| Typing.SubfieldComplete | factorengine/binder.go:640-663 | where the schema comparison fails, some value is in the first and not in the second |
| Typing.JoinCovers | factorengine/binder.go:640-663 | the merged schema of a conditional always covers its left arm, and covers the right arm exactly if an arm is null, the type is a plain one, or the right schema is within the left |
| Typing.GetSafe | factorengine/evaluator.go:493-509 | `get` on a typed container and key fails exactly if one of them is null, and otherwise yields a value of the result field |
| Typing.Soundness | factorengine/binder.go:11-180 | a well-typed tree evaluates to null or a value of its field, and fails only as divisions and `get` can, whether right operands of `&&` and `\|\|` are coerced or not |
| Typing.BindWellTyped | factorengine/binder.go:189-611 | what the binder accepts is well typed in every conforming context |
| Typing.CheckedIsSafe | factorengine/binder.go:189-611 | type soundness of accepted expressions in conforming contexts, with and without typed list elements |
| Typing.ChoiceExact | factorengine/binder.go:640-663 | for any two comparable field schemas, choosing between two such fields is safe in every conforming context if and only if the condition on conditionals holds of it |
| Acceptance.BindExact | factorengine/binder.go:189-611 | the checker accepts a tree exactly if its references resolve and every node's operation has a meaning for all values of its operands' types, or meets its own condition on equality, arms, elements or containers |
| Acceptance.StrictRefused | factorengine/expression_helpers.go:17-22 | an ordered or arithmetic operator is refused exactly on types with values that it fails on, and on the null types |
| Acceptance.UnaryRefused | factorengine/binder.go:515-534 | the same for the unary operators |
| Acceptance.ComparableExact | factorengine/expression_helpers.go:24-32 | types may be compared exactly if one is that of null, they are the same, or values of them other than null can be equal |
| Acceptance.ResultTypes | factorengine/expression_helpers.go:7-50 | results of comparisons are boolean, of arithmetic and merging the least type above both |
| Acceptance.RefusedReference | factorengine/schema.go:5-64 | with which error a reference is refused |
| Acceptance.RefusedOperation | factorengine/binder.go:515-611 | with which error an operation or conditional is refused whose parts are accepted |
| Acceptance.RefusedCall | factorengine/binder.go:319-419 | with which error a call is refused whose arguments are accepted |
| Acceptance.RefusedGet | factorengine/binder.go:421-449 | with which error a `get` is refused whose arguments are accepted |
| Typing.MixedMapsConform | factorengine/binder.go:653-661 | the counterexample's context conforms to its schema |
| Typing.MixedMapsUnsound | factorengine/binder.go:653-661 | without the condition on conditionals an expression checked as INT evaluates to a string |
| Bound.RawAgrees | factorengine/bytecode.go:492-521 | leaving right operands of `&&` and `\|\|` alone gives the same value, or for a value that is only tested the same truth, if reached right operands are boolean wherever more than their truth is used |
| Bound.TestedIsWeaker | factorengine/bytecode.go:448-521 | what suffices for the value of a tree suffices for its truth |
| Folding.FoldPreserves | factorengine/bytecode.go:206-366 | constant folding keeps the value or the error in every context |
| Folding.FoldShrinks | factorengine/bytecode.go:206-366 | folding never makes the code longer or its stack deeper |
| Folding.FoldKeepsBoolRights | factorengine/bytecode.go:206-366 | folding keeps that condition on reached right operands |
| Folding.FoldComplete | factorengine/bytecode.go:206-366 | a constant tree that evaluates at all is folded to the literal of its value |
| TypedPrograms.FoldedSoundness | factorengine/bytecode.go:206-366 | type soundness survives folding, also with right operands left alone |
| Pools.InternAllGrows | factorengine/bytecode.go:523-553 | interning keeps keys and positions in bijection, never moves an item, and gives every item asked for an index |
| Pools.IndexStable | factorengine/bytecode.go:523-553 | an index stays valid while the pools grow |
| Pools.InternAllOrigin | factorengine/bytecode.go:523-532 | a pool holds only what was there or was asked for |
| Pools.InternExact | factorengine/bytecode.go:523-532 | the pool hands back the constant asked for, unless a different constant with the same key is there: both directions |
| Pools.KeyExact | factorengine/bytecode.go:523-532 | constants without doubles share a key exactly if they are of the same kind and become equal when the kinds of numbers inside them are forgotten |
| Codegen.CodeForward | factorengine/bytecode.go:448-521 | every jump of generated code goes forward, within the code of its tree |
| Codegen.CodeStable | factorengine/bytecode.go:415-521 | code stays the code of its tree when more is appended and the pools grow |
| Compiler.CodeBuffer.Append | factorengine/bytecode.go:417-420 | appends one instruction |
| Compiler.CodeBuffer.Patch | factorengine/bytecode.go:458-462 | sets the target of one earlier jump and nothing else |
| Compiler.BytecodeCompiler.constructor | factorengine/bytecode.go:72-78 | starts with empty, valid pools |
| Compiler.BytecodeCompiler.InternConst | factorengine/bytecode.go:523-532 | one step of interning a constant, with its index |
| Compiler.BytecodeCompiler.InternAccessor | factorengine/bytecode.go:534-543 | one step of interning an accessor, with its index |
| Compiler.BytecodeCompiler.InternBuiltin | factorengine/bytecode.go:545-553 | one step of interning a built-in's name, with its index |
| Compiler.BytecodeCompiler.EmitExpr | factorengine/bytecode.go:415-490 | the code grows by exactly the code of the tree, the pools by exactly the items it needs |
| Compiler.BytecodeCompiler.EmitConditional | factorengine/bytecode.go:448-463 | the same for a conditional with its two patched jumps |
| Compiler.BytecodeCompiler.EmitShortCircuitBinary | factorengine/bytecode.go:492-521 | the same for `&&` and `\|\|` with their patched jumps |
| Compiler.BytecodeCompiler.EmitStrictBinary | factorengine/bytecode.go:464-478 | the same for the other operators, left operand first |
| Compiler.BytecodeCompiler.EmitCall | factorengine/bytecode.go:479-485 | the same for a call of a built-in |
| Compiler.BytecodeCompiler.EmitAll | factorengine/bytecode.go:421-428 | the same for elements and arguments, left to right |
| Compiler.BytecodeCompiler.EmitEntries | factorengine/bytecode.go:428-435 | the same for map entries, key before value |
| Compiler.BytecodeCompiler.Compile | factorengine/bytecode.go:182-204 | the program is the code of the folded tree over the grown pools; the peephole pass changes nothing |
| Simulation.Simulate | factorengine/bytecode.go:415-521 | from any stack and within the budgets, running the code of a tree ends just behind it with the tree's value pushed, or fails with the tree's error |
| Peephole.MarkKept | factorengine/bytecode.go:380-388 | marks exactly the jumps to the next instruction for removal |
| Peephole.MapIndices | factorengine/bytecode.go:389-397 | maps every index to the number of instructions kept before it |
| Peephole.OptimizeInstructions | factorengine/bytecode.go:376-413 | the loops compute the optimised code, targets redirected |
| Peephole.KeptMonotone | factorengine/bytecode.go:389-397 | the index map never decreases |
| Peephole.OptimizedRun | factorengine/bytecode.go:376-413 | from every point of an arbitrary program, the optimised one ends with the same result or error, in no more steps, unless the original is stopped by the step budget or its deadline |
| Peephole.OptimizedExecutes | factorengine/bytecode.go:376-413 | whole runs agree whenever the original ends within the step budget and the deadline |
| Peephole.ForwardUnchanged | factorengine/bytecode.go:376-413 | on code whose jumps skip at least one instruction, as generated code's do, the pass is the identity |
| Peephole.OnePassExact | factorengine/bytecode.go:376-413 | a second pass changes nothing if and only if, for every jump over more than nothing, some instruction between it and its target stays |
| Peephole.NotIdempotent | factorengine/bytecode.go:376-413 | an input on which a second pass removes more |
| VirtualMachine.BytecodeVM.constructor | factorengine/bytecode.go:590-601 | limits that are not positive become 10000 steps and a depth of 1024, and a missing context one that is never cancelled |
| VirtualMachine.BytecodeVM.Eval | factorengine/bytecode.go:617-842 | the loop over instruction pointer and stack computes the result that the run function defines, with every error, cancellation and both budgets |
| MachineLaws.OperandsNeeded | factorengine/bytecode.go:645-790 | an instruction without its operands or its pool entry fails |
| MachineLaws.OperandsOnly | factorengine/bytecode.go:645-790 | with them it replaces its operands by one value that depends on nothing below them, or fails |
| MachineLaws.ExecutionExact | factorengine/bytecode.go:617-842 | a program yields a value exactly if a sequence of steps within all limits leads from the start to the end with it |
| Correctness.CompiledMeansStored | factorengine/bytecode.go:182-204 | for every tree, pools and context: a compiled program means its tree with constants as the pool stores them and right operands left alone, or a budget that may run out does |
| Correctness.ConstantsExact | factorengine/bytecode.go:523-532 | a program holds exactly the constants of its tree if and only if no two different ones, old or new, share a key |
| Correctness.CompiledMeansRaw | factorengine/bytecode.go:182-204 | with unambiguous constants it means the tree itself, right operands left alone |
| Correctness.CompiledMeansEval | factorengine/bytecode.go:182-204 | under that condition on right operands the program of the folded tree and the interpreter on the unfolded one agree in value and error, or the folded tree does not fit a budget and that budget runs out |
| Correctness.CompiledMeansTest | factorengine/bytecode.go:182-204 | a rule of which only the truth is asked gives the interpreter's truth or error, although its value may be null instead of false |
| Correctness.CompiledWellBehaved | factorengine/bytecode.go:617-842 | every failure of a compiled program is a failure of evaluating its tree, or of a budget or deadline that its size or depth does not fit: no stack fault, no missing pool entry, no end with other than one value |
| Correctness.ShortCircuitExact | factorengine/bytecode.go:492-521 | exactly when compiled and interpreted `&&`, `\|\|` differ: the right operand is reached, is not boolean, and the operator is not folded |
| Divergence.NullRightOperandDiverges | factorengine/bytecode.go:497-507 | whatever compiling the text `!(f.a && f.b)` yields, it gives false where the interpreter gives true |
| Correctness.NeverNullIsBool | factorengine/evaluator.go:168-278 | expressions of the listed forms evaluate to booleans |
| Correctness.SafeRightsSuffice | factorengine/evaluator.go:249-277 | if right operands of which more than the truth is used have such forms, compiled and interpreted evaluation cannot differ |
| Correctness.PlainConstantsDistinguished | factorengine/bytecode.go:523-532 | constants other than doubles, lists and maps never share a key |
| Divergence.SharedConstantDiverges | factorengine/bytecode.go:523-532 | whatever compiling the text `f.c ? [1] : [1.0]` yields, it gives the list of the integer where the interpreter gives the list of the double |
| Parser.ExpressionParser.Consume | factorengine/expression_parser.go:261-267 | the token at the position, which advances within the tokens |
| Parser.ExpressionParser.ParseExpression | factorengine/expression_parser.go:72-113 | the loop of the precedence climber computes the recursive specification, result and position |
| Parser.ExpressionParser.ParseOperand | factorengine/expression_parser.go:115-174 | the same for prefixes |
| Parser.ExpressionParser.ParseElements | factorengine/expression_parser.go:176-252 | the same for list elements and call arguments |
| Parser.ExpressionParser.ParseMapLiteral | factorengine/expression_parser.go:198-225 | the same for map literals |
| Printer.ParserInvertsPrinter | factorengine/expression_parser.go:41-174 | parsing the minimally parenthesised printing of any parsable tree gives the tree back |
| Minimality.PrinterMinimal | factorengine/expression_parser.go:41-174 | whatever tokens parse to a tree, the printing of that tree parses to it too and is no longer |
| Minimality.JoinSplit | factorengine/parser.go:8-27 | joining the segments of a reference with dots gives its text back |
| Minimality.TextRoundTrip | factorengine/expression_parser.go:41-58 | writing a tree as text and parsing the text gives the tree back |
| Minimality.LayoutRoundTrip | factorengine/expression_parser.go:41-58 | so does parsing any other text of its tokens, whatever white space is in it |
| Minimality.WholeLiterals | factorengine/expression_parser.go:127-150 | whole numbers up to 2147483647 are INT, up to 9223372036854775807 LONG, and larger ones no literals |
| Grouping.ChainParses | factorengine/expression_parser.go:58-113 | operands with operators between them, however many, parse to the tree whose root is the last operator of the loosest class, and whose sides are grouped the same way |
| Grouping.RootExact | factorengine/expression_parser.go:58-71 | no operator in front of the root is looser, and all behind it are tighter |
| Grouping.ChainTextParses | factorengine/expression_parser.go:41-113 | the same on text with any white space |
| Grouping.TwoOperators | factorengine/expression_parser.go:58-113 | of two operators the second takes the middle operand exactly if it is in a tighter class |
| Grouping.PrefixFirst | factorengine/expression_parser.go:149-158 | a prefix operator takes no more than the operand behind it |
| Grouping.ConditionalLast | factorengine/expression_parser.go:78-96 | a condition reaches back over all operators, the last arm forward over everything |
| Grouping.SevenExample | factorengine/expression_parser.go:58-113 | `1+2*3` is seven |
| Minimality.ParserRange | factorengine/expression_parser.go:41-58 | the trees that some text parses to are exactly the parsable ones |
| Tokenizer.TokenizeExpression | factorengine/expression_parser.go:269-387 | the scanning loops compute the tokenizer function, or its error |
| Tokenizer.TokenizerInvertsRender | factorengine/expression_parser.go:269-387 | tokenizing writable tokens written with spaces gives the tokens and the end token |
| Tokenizer.TokenizerInvertsLayout | factorengine/expression_parser.go:269-387 | so are tokens written with any white space in the gaps, and none between tokens that may touch |
| Tokenizer.WhiteSpaceIgnored | factorengine/expression_parser.go:269-276 | what white space is between tokens makes no difference |
| Tokenizer.NameCharacters | factorengine/expression_parser.go:269-300 | which characters of seven bits are white space, start names and continue them |
| Tokenizer.UsualNames | factorengine/expression_parser.go:277-300 | names of letters, digits, underscores and points that are no keywords are names |
| Tokenizer.TokensAreWritable | factorengine/expression_parser.go:269-387 | the tokenizer produces only writable tokens, closed by the end token |
| Tokenizer.TokenizerRange | factorengine/expression_parser.go:269-387 | the token sequences of texts are exactly the writable ones |
| Snapshot.ValueRoundTrip | factorengine/compiler_snapshot.go:149-233 | restoring the snapshot of a value gives the value |
| Snapshot.RestoreExact | factorengine/compiler_snapshot.go:192-233 | restoring fails exactly if an unknown kind is somewhere inside |
| Snapshot.ProgramRoundTrip | factorengine/compiler_snapshot.go:60-147 | restoring the snapshot of a program gives the program |
| Snapshot.CompiledRoundTrip | factorengine/compiler_snapshot.go:36-58 | a restored compiled expression is the stored one without its trees |
| Lru.LruProgramCache.constructor | factorengine/compiler_cache.go:113-122 | empty, with a capacity of at least one |
| Lru.LruProgramCache.Get | factorengine/compiler_cache.go:124-138 | returns the item under the key and moves it to the front; counts the hit or the miss |
| Lru.LruProgramCache.Set | factorengine/compiler_cache.go:140-160 | puts the item in front and drops the last one if there is one too many; counts the eviction |
| Lru.LruProgramCache.Delete | factorengine/compiler_cache.go:162-171 | removes the item under the key, if any |
| Lru.LruProgramCache.EvictOldest | factorengine/compiler_cache.go:189-198 | drops the last item from list and map |
| Lru.LruProgramCache.GetStats | factorengine/compiler_cache.go:173-187 | the counters; gets are hits plus misses, and entries are within capacity |
| LruLaws.OnlyStored | factorengine/compiler_cache.go:124-198 | whatever the cache holds after a run is what was stored last under its key |
| LruLaws.NestedStep | factorengine/compiler_cache.go:124-198 | one operation on a smaller and a larger cache keeps the smaller list a subsequence, and the sizes as close as the capacities |
| LruLaws.Inclusion | factorengine/compiler_cache.go:124-198 | after any run every hit of the smaller cache is a hit of the larger one with the same value |
| LruLaws.MoreRoomMoreHits | factorengine/compiler_cache.go:124-138 | a larger cache never has fewer hits over a run |
| LruLaws.Retention | factorengine/compiler_cache.go:124-198 | an item is evicted only after capacity many distinct other keys were used, and without deletions exactly then |
| Persistent.ProgramStore.Load | factorengine/persistent_cache.go:37-53 | what a load returns, unless it fails |
| Persistent.ProgramStore.Save | factorengine/persistent_cache.go:55-67 | what a save leaves behind: the entry, the old state, or nothing readable |
| Persistent.ProgramStore.Delete | factorengine/persistent_cache.go:69-78 | removes the entry, unless it fails |
| Persistent.PersistentProgramCache.constructor | factorengine/persistent_cache.go:95-109 | no local expiry times yet; a missing local cache becomes an empty one for 1024 items, a time to live that is not positive 24 hours |
| Persistent.PersistentProgramCache.Get | factorengine/persistent_cache.go:111-139 | the lookup through both levels, on local items, expiry times and store, under any failures |
| Persistent.PersistentProgramCache.Set | factorengine/persistent_cache.go:141-160 | what a set changes on both levels |
| Persistent.PersistentProgramCache.Invalidate | factorengine/persistent_cache.go:162-171 | what an invalidation removes on both levels, and whether it reports success |
| PersistentLaws.RefinesExpiringMap | factorengine/persistent_cache.go:111-200 | over a working store and a clock that does not run backwards, lookups are those of a map whose entries expire |
| PersistentLaws.LookupCleansUp | factorengine/persistent_cache.go:111-139 | a lookup removes an entry that has expired or cannot be restored, if the store can, and changes nothing else in the store |
| PersistentLaws.PutStores | factorengine/persistent_cache.go:141-160 | a save that works leaves the program with its creation and expiry times, and nothing else changed |
| PersistentLaws.BoundedStaleness | factorengine/persistent_cache.go:111-200 | with any instances, failures and clocks, a hit was set by some instance under that key and its time has not passed |
| PersistentLaws.DroppedIsGone | factorengine/persistent_cache.go:162-171 | invalidating with a working store leaves nothing under the key at that instance or in the store |
| PersistentLaws.DroppedStaysGone | factorengine/persistent_cache.go:111-171 | from then on that instance misses on the key until someone sets it again |
| Fingerprint.FingerprintInjective | factorengine/compiler_cache.go:314-367 | plain schemas have equal fingerprints exactly if they are equal |
| Fingerprint.SortedAscending | factorengine/compiler_cache.go:266-271 | codes and names are written in ascending order |
| Fingerprint.FieldReadable | factorengine/compiler_cache.go:336-367 | a field's fingerprint can be read back wherever it stands |
| Fingerprint.ElementFieldsCollide | factorengine/compiler_cache.go:345-366 | an element type with fields has the fingerprint of an element type without, beside own fields |
| Fingerprint.ColonCollides | factorengine/compiler_cache.go:314-334 | a field name with a colon can imitate another field |
| Locality.ColonEnds | factorengine/expression_parser.go:41-58 | a text that parses does not parse with a colon and anything else behind it |
| Texts.SplitEnclosed | factorengine/compiler_cache.go:369-394 | a part with closed quotes, and delimiters only inside them, ends at the first delimiter outside quotes |
| CompileKeys.DependencyTextExact | factorengine/compiler_cache.go:298-301 | plain dependencies have equal texts exactly if they are the same but for their order |
| CompileKeys.RegistryFingerprintExact | factorengine/compiler_cache.go:266-312 | plain definitions have equal fingerprints exactly if they are equal but for the order of dependencies |
| CompileKeys.ParsedTextsSplit | factorengine/compiler_cache.go:258-264 | keys of two texts that parse are equal only if texts and fingerprints are |
| CompileKeys.SealedSplit | factorengine/compiler_cache.go:258-264 | so are keys of any texts before fingerprints without `::` |
| CompileKeys.CompileKeyExact | factorengine/compiler_cache.go:258-312 | keys are equal exactly for the same text over the same plain definitions, but for the order of dependencies |
| CompileKeys.FieldNameConfuses | factorengine/compiler_cache.go:314-334 | a rule that compiles over one registry and fails over another with the same key |
| CompileKeys.FactorCodeConfuses | factorengine/compiler_cache.go:258-264 | with `::` in a factor code, a text that parses and one that does not have the same key |
| Thrift.CloneAllSame | factorengine/idl.go:202-215 | cloning descriptors gives equal descriptors |
| Thrift.StructResolver.ParseThriftFields | factorengine/idl.go:130-144 | the loop over the fields computes the field table, or fails at the first bad field |
| Thrift.StructResolver.BuildStructDescriptor | factorengine/idl.go:231-252 | the mutating recursion returns the struct's expansion exactly if it has one that avoids the structs being visited, and restores the visiting set |
| Thrift.StructResolver.LazyStructs | factorengine/idl.go:254-267 | trying all structs in any order yields exactly those that can be expanded |
| Thrift.StructResolver.ParseThriftStructs | factorengine/idl.go:75-91 | the driver succeeds exactly if every struct can be expanded, and returns all expansions |
| Thrift.ExpandUnique | factorengine/idl.go:231-267 | a struct has one expansion, wherever it was reached from |
| Thrift.ResolvableExact | factorengine/idl.go:75-91 | all structs can be expanded exactly if references are closed and acyclic |
| Thrift.ResolutionUnique | factorengine/idl.go:75-91 | the result is the only table in which every struct is what its fields say |
| Thrift.SolvesExact | factorengine/idl.go:75-144 | a struct is what its fields say exactly if all their types are known and its table has under each name what the last field of that name declares |
| Thrift.FieldDescribed | factorengine/idl.go:178-200 | a field of a scalar type has that type, any other the table of its struct |
| Pipeline.CompileRule | factorengine/compiler.go:33-51 | a rule compiles exactly if it parses and every operation in it has a meaning for its operands; it fails as parsing or binding does, and otherwise yields the program of the bound tree |
| Pipeline.RestoredIsProduced | factorengine/compiler_snapshot.go:36-58 | a stored and restored compilation is still a compilation of its source |
| Pipeline.RuleMeansInterpreter | factorengine/compiler.go:85-87 | running a rule's program gives what walking its syntax tree gives, under the stated conditions and within the folded tree's budget |
| Pipeline.EvalCompiled | factorengine/compiler.go:85-87 | evaluating a compiled expression runs its program within the default limits |
| Pipeline.RunRule | factorengine/compiler.go:33-87 | from a text to its value: the error of parsing or binding, or what the interpreter gives, under the stated conditions |
| TypedTexts.ParsedIsTyped | factorengine/expression_parser.go:72-252 | all literals of a tree that some text parses to are of their type, whatever reads the numbers |
| TypedTexts.ParsableIsTyped | factorengine/expression_parser.go:127-150 | so are those of a parsable tree |
| Pipeline.RuleIsSafe | factorengine/compiler.go:85-87 | running any rule's program in a conforming context gives null or a value of the rule's type, an error of a division or a `get`, or that of a budget or deadline which the folded tree does not fit |
| CachedCompiler.CachedRuleCompiler.constructor | factorengine/compiler_cache.go:210-225 | takes any cache, whatever it holds |
| CachedCompiler.CachedRuleCompiler.Compile | factorengine/compiler_cache.go:231-256 | the answer and the cached items after any request; items stay explained by requests, and the answer is the right one if these are interchangeable |
| CachedCompiler.ServedHonestly | factorengine/compiler_cache.go:231-256 | an answer is a product of some request with the same key |
| CachedCompiler.SessionsExact | factorengine/compiler_cache.go:231-256 | every session over some requests is answered right if and only if requests among them with the same key have the same products |
| CachedCompiler.AdmissibleInterchangeable | factorengine/compiler_cache.go:258-264 | they do if definitions are plain and texts parse or fingerprints hold no `::` |
| CachedCompiler.ConfusedAnswer | factorengine/compiler_cache.go:231-256 | a rule answered with a program over a registry on which it does not compile |

## Left out

- VirtualMachine.BytecodeVM.Eval: `StepBudget` and `StackBudget` are two codes here where the source reports one
  code with two field names.
- Tracing, disassembly and the program fingerprint.
- Bytecode.Operate: a MAKE_MAP with a negative count, which no compiled program holds, is `InternalPanic`. In
  the source it uncovers whatever the stack's array still holds, and panics only beyond the array's capacity.
- Folding.FoldPreserves: recovered panics. A built-in called with too few arguments is the code
  `InternalPanic`. The binder never produces such a call, but where folding meets one made by hand the source
  fails the compilation, while the model leaves the call in place.
- CachedCompiler.CachedRuleCompiler.Compile: the JSON of a remote configuration's mappings is a text here; the
  cache is the least-recently-used one.
- CachedCompiler.CachedRuleCompiler.constructor: a missing cache, which becomes an `InMemoryProgramCache`, a
  plain map with counters that is not part of this model.
- CompileKeys.CompileKeyExact: its conditions on definitions are sufficient ones; of definitions outside them,
  two families with equal keys are given.
- Persistent.PersistentProgramCache.Get: the local cache is the least-recently-used one. A local cache
  without a delete operation would go on returning an expired item once its expiry time is forgotten. There is
  one reading of the clock per operation, where the source can read it twice.
- Persistent.ProgramStore.Load: keys stand for themselves and entries for their encodings; the file names (a
  hash of the key) and the JSON of entries are not part of this model.
- Persistent.ProgramStore.Save: the same.
- Persistent.ProgramStore.Delete: the same.
- Tokenizer.TokenizeExpression: a character stands for a byte. Reading the bytes of a name or a string back
  as UTF-8 happens outside the engine.
- Minimality.ParserRange: reading and showing doubles are parameters; that a double shown is read back is an
  assumption about them (`FaithfulNumbers`).
- OperatorLaws.ComparisonsAgree: doubles. Rounding, infinities and not-a-number are inside the operations of
  `FloatOps`.
- Typing.CheckedIsSafe: the condition on conditionals is exact for a choice between two fields. In a larger
  expression an unsound choice can be harmless, for instance if nothing looks inside its value.
- Snapshot.ValueRoundTrip: contexts and constants hold only the kinds of values that the parser, the binder
  and factor results produce, so that taking a snapshot cannot fail.
- Typing.BindWellTyped: a schema's fields are present; nil field schemas and a factor without an output schema
  are not modelled.
- Thrift.StructResolver.ParseThriftStructs: the regular expressions that cut a file into structs, fields and
  services, and the service and method tables built from them; structs come as lists of fields, some of them
  malformed.
- Lru.LruProgramCache.Get: locks and atomic counters. Each public operation of a cache is one step.
- The observer, the engine wrapper, the service layer, the definition validator and response paths would add
  only easy members.
