# A verified model of the Sunder compiler

Sunder is a small systems language whose compiler parses a module, puts its declarations in order,
resolves them, evaluates constant expressions and emits C.  This project models the passes that
transform or decide something, and proves what each of them is for.

| component | files | main results |
|---|---|---|
| defer and scope lowering | SourceLang, CLang, Lowering, LoweringProof, SlotProof, Resolver, ResolverObject, Codegen, Emitter, ResolverProof, LostDefers, AcceptedFunctions, FunctionCompiler | `LoweringPreservesMeaning`, `CompiledExactly`, `CompilerPreservesMeaning`, `AcceptedExactly`, `SlotsAreDistinct`, `EmittedIsScoped` |
| constant evaluation against emitted C | BitArray, BitArrayObject, Evaluate, EvaluateProof, Evaluator, CInteger, CIntegerProof, StrGen, HelperProof, EmittedProof, Answers | `EvaluationAgreesWithC`, `EvaluationFailsWithC`, `PortableExactly`, `ByteComparisonExactly`, `ComparisonAnswers`, `DivisionIsUnique`, `CastIsUnique`, `WrappingIs`, `CheckedHelper` |
| layout and addresses | Layout, LayoutProof, LayoutPaths, LayoutAccess, LayoutObject | `EmittedLayout`, `PartInsideAndAligned`, `DivergingPartsApart`, `DesignatedAtOffset`, `AcceptedAsInC`, `DataReached` |
| ordering of declarations | Declarations, Order, OrderProof, OrderCycles, SourceOrders, Occurrences, OrdererObject, ModuleOrder | `OrderingIsTopological`, `RefersExactly`, `CircularIsCycle`, `OrderableExactly`, `EveryOrderExactly` |
| expression parser | Syntax, Pratt, WellFormed, ParserSound, ParserComplete, ParserClasses, ParserObject | `ParseExactly`, `ParseIsUnique`, `TighterFirst`, `BinaryNests` |
| table of types | TypeName, TypeTable | `SameName`, `SameObject`, `SliceSize`, `GuardIsExact`, `EmissionOrder` |
| template instances | Templates, TemplateWalk, TemplateProof, TemplateLoops, TemplateOnce, TemplateObject | `StepDrops`, `SuccessIsComplete`, `MadeExactlyOnce`, `RepetitionIsLoop`, `SignatureLoopStops` |
| loading of modules | Loading, LoadingProof, LoaderObject | `LoadsExactly`, `LoadsEachOnce`, `FailureIsReal` |
| names of static symbols | StaticNames | `DistinctExactly`, `StaysDistinct` |

How the model is built.  Where the compiler changes an object in place there is a class with the same
fields and methods (`ResolverObject.Object`, `Emitter.Emitter`, `OrdererObject.Orderer`,
`ParserObject.Parser`, `TemplateObject.Resolver`, `LoaderObject.Loader`, `TypeTable.Context`,
`LayoutObject.Aggregate`, `StaticNames.Statics`, and the loops over bit arrays and byte buffers in
`BitArrayObject` and `Evaluator`).  Each method is proved against a function, and the theorems are
about these functions, for every input and every run.  `Fatal` stands for an error message followed by
exit.

Defer lowering.  The source language has an operational semantics of its own: a block with a defer runs
its remaining statements and then the defer, however they were left.  The reference lowering keeps the
pending defers as a list; resolver and code generator link them through the heap and walk the links.
The reference preserves meaning (`LoweringPreservesMeaning`): same way of ending, same value, same
calls in the same order, same number of loop iterations, for every behaviour of operators and called
functions, all arguments and every fuel, so diverging runs agree on every prefix.  The compiler yields
exactly the reference if and only if no `when` loses defers (`CompiledExactly`).

Evaluation.  An expression has a value at compile time and a C text.  C integers follow sections
6.3.1.1, 6.3.1.3, 6.3.1.8, 6.5.5 and 6.5.7 of ISO/IEC 9899:1999, with the choices of GCC and Clang for out-of-range
conversion and right shift of negative values.  The helper functions and macros of `lib/sys/sys.h` are
modelled in both of their forms, with the overflow builtins and without.

## Model

| member | source | states |
|---|---|---|
| LoweringProof.LoweringPreservesMeaning | resolve.c:3123-3203 | copying the bodies of the pending defers to every place where their scope is left keeps the meaning of a function: outcome, returned value, calls and loop iterations are the same for every machine, all arguments and every fuel; only a `return` with a jumping defer pending in an outer loop is excluded |
| LoweringProof.JumpTarget | resolve.c:3616-3652 | a jump in the copy of a defer goes to the loop around the defer if and only if the defer was met in the innermost loop around the copy |
| LoweringProof.EvalAgrees | codegen.c:2244-2255 | an expression whose names were replaced by slots has the value, and makes the calls, that it has under lexical scoping |
| LoweringProof.AssignAgrees | codegen.c:3703-3715 | an assignment changes the slot of the innermost binding of the name, and no other binding |
| LoweringProof.FinalReturnDead | codegen.c:1633-1635 | the final return statement changes nothing for a body that is not left at its end |
| LoweringProof.EndsInReturnExec | resolve.c:3103-3118 | a body that passes the check on its last statement is never left by falling off its end |
| LoweringProof.SimCopies | codegen.c:3856-3867 | leaving a place through the copies of its pending defers does what the source does, also when a copy is itself left by a jump or a return |
| SlotProof.SlotsAreDistinct | resolve.c:478-489 | each declaration of a function, the body of a defer counted once, gets a slot of its own, and the emitted code declares exactly these slots |
| SlotProof.EmittedIsScoped | codegen.c:1578-1622 | every identifier that emitted code uses is visible there, and no block or `for` declares one that is visible around it, copies of defer bodies included |
| SlotProof.StmtsNumbered | resolve.c:1848-1864 | slots are numbered consecutively in source order |
| ResolverProof.LookupIsLexical | ast.c:1232-1262 | searching the innermost table from its latest element and then the parent tables finds the innermost visible binding, and fails exactly when there is none |
| ResolverProof.WalkIsCopies | codegen.c:3861-3866 | a walk from the head of the chain to any node of it emits the bodies of the defers above that node, latest first, and never steps past NULL |
| SourceLang.SelectedIsFirst | resolve.c:3205-3249 | the arm that a `when` selects is the first one whose condition holds, an else arm counting as true; there is none only if no arm is chosen |
| ResolverProof.WhenIsSplice | resolve.c:3143-3160 | a `when` that selects an arm, or is met with no defer pending, resolves as the statements of that arm in its place |
| ResolverProof.StmtsLower | resolve.c:3251-3306 | without lost defers the resolved statements generate the lowered code, and the chain stands for the pending defers afterwards |
| ResolverProof.BlockLowersIn | resolve.c:3186-3203 | a block restores the head it found, and its two links delimit exactly its own defers |
| ResolverProof.LoopLowers | resolve.c:3575-3614 | the body of a for-expr loop records the head at the loop, and break and continue walk back to it |
| ResolverProof.RangeLowers | resolve.c:3496-3573 | the same for a for-range loop, whose variable is declared by the `for` and not by its body |
| ResolverProof.JumpLowers | resolve.c:3616-3652 | break, continue and return record the walk over exactly the defers that they cross |
| ResolverProof.DeferBodyLowers | resolve.c:3391-3447 | a defer statement pushes one node whose body generates the lowered block |
| ResolverProof.CompiledIsLowered | codegen.c:1565-1638 | where no `when` loses defers, resolver and code generator together yield the reference lowering and reject the same functions |
| LostDefers.CompiledExactly | resolve.c:3205-3249 | they yield it if and only if no `when` without a selected arm is reached while a defer is pending |
| LostDefers.BlockKeeps | codegen.c:1631-1632 | a block whose code is that of the lowering has kept its pending defers up to its end |
| LostDefers.StmtsFit | codegen.c:1624-1630 | statements never generate more code than their lowering, and as much exactly while no defers are lost |
| ResolverProof.BlockDefersExact | resolve.c:3186-3201 | at the end of a block the walk emits exactly the block's own defers if and only if no `when` of the block lost pending ones |
| ResolverProof.LostWalkHitsNull | codegen.c:3862-3866 | when a block inside a deferring block loses its defers, the walk at its end steps past NULL |
| ResolverProof.CompilerPreservesMeaning | codegen.c:1809-1838 | the code generated for a function means what the function means |
| AcceptedFunctions.AcceptedExactly | resolve.c:3053-3121 | a function is lowered if and only if its parameters are distinct, every name is declared before its use and around it, jumps are inside loops, only a function without a result returns without a value, and one with a result ends in a `return` |
| AcceptedFunctions.CompiledFunctions | resolve.c:3053-3121 | where no defers are lost the resolver accepts exactly these functions |
| AcceptedFunctions.EndsExactly | resolve.c:3103-3118 | the check on the last statement looks at the last one that the body yields, selected `when` arms in their place |
| FunctionCompiler.Compile | resolve.c:3053-3121 | resolving and emitting a function in place gives the result of the specification, so the emitted function means what the source does |
| FunctionCompiler.LostDeferExample | resolve.c:3213-3214 | `defer cleanup(0); when false { }` calls `cleanup` in the source and not in the emitted function |
| FunctionCompiler.JumpInDeferExample | codegen.c:1740-1748 | a `break` in a defer body, copied to a `return` in an inner loop, leaves that loop instead of the outer one |
| FunctionCompiler.CancelledReturnExample | codegen.c:1821-1828 | a `return 5` in a defer body that never takes effect overwrites the value of the pending `return 3` |
| ResolverObject.Object.constructor | resolve.c:3064-3086 | starts with the parameters in scope, no defer and no loop |
| ResolverObject.Object.Lookup | ast.c:1232-1262 | the loop over the tables and their elements finds what the specification finds |
| ResolverObject.Object.ReserveLocal | resolve.c:478-489 | the slot counter grows by one with every declaration |
| ResolverObject.Object.Block | resolve.c:3123-3203 | the loop over the statements, splicing `when`, leaves the state of the specification and restores the head |
| ResolverObject.Object.Scope | resolve.c:3391-3411 | a block with a table of its own closes it again |
| ResolverObject.Object.WhenStmt | resolve.c:3205-3249 | the block of the first arm whose condition holds, or an empty block with NULL links |
| ResolverObject.Object.Statement | resolve.c:3251-3306 | every kind of statement resolves as specified |
| ResolverObject.Object.PushDeferNode | resolve.c:3413-3447 | a new node points to the old head and becomes the head |
| ResolverObject.Object.RangeLoop | resolve.c:3496-3573 | loop fields are saved, set and restored |
| ResolverObject.Object.ExprLoop | resolve.c:3575-3614 | loop fields are saved, set and restored |
| ResolverObject.Object.Conditionals | resolve.c:3449-3494 | the arms are resolved in order, each in a scope of its own |
| ResolverObject.Object.SwitchCases | resolve.c:3654-3763 | one resolved block serves every value that its case lists |
| Emitter.Emitter.Block | codegen.c:1565-1638 | declarations, statements and the final walk, appended in place |
| Emitter.Emitter.Defers | codegen.c:3856-3867 | the loop over `prev` appends what the specification lists, or dereferences NULL where it says so |
| Emitter.Emitter.Stmt | codegen.c:1640-1668 | every kind of statement is emitted as specified |
| Emitter.Emitter.Jump | codegen.c:1740-1759 | the walk and then the jump |
| EvaluateProof.CastIsUnique | eval.c:745-832 | a cast to an integer, byte or enum type is the one value of that type congruent to the source value modulo two to its width |
| EvaluateProof.WrappingIs | eval.c:1307-1327 | the exact sum, difference or product always fits the array of twice the width, and keeping its low half is wrapping |
| EvaluateProof.WrapIsUnique | eval.c:1409-1429 | the wrapped value is the one value of the type congruent to the exact result |
| EvaluateProof.NegWrappingIs | eval.c:1067-1079 | inverting the bits and adding one is wrapping negation |
| EvaluateProof.BitNotIs | eval.c:1080-1110 | inverting the bits of a signed value gives -x - 1 |
| EvaluateProof.ShlIs | eval.c:1196-1223 | a left shift is multiplication by a power of two, wrapped; shifting everything out gives zero |
| EvaluateProof.ShrIs | eval.c:1224-1252 | a right shift is division by a power of two rounded down, for every count |
| EvaluateProof.EvalHas | eval.c:181-239 | the value of an expression is a value of its type |
| EvaluateProof.EagerExactly | eval.c:1165-1195 | evaluating both operands of `and` and `or` gives a value if and only if stopping early does and every operand that is left out then has a value |
| EvaluateProof.LazyAgrees | eval.c:1184-1195 | where evaluating both operands of `and` and `or` gives a value, stopping early gives the same |
| Answers.ComparisonAnswers | eval.c:1253-1276 | `<` is true exactly when the difference is positive and `==` when there is none; `<=`, `>=`, `>` and `!=` follow from these two, and every comparison is true or false |
| Answers.BitwiseAnswers | eval.c:1491-1631 | `|` and `&` add up to the sum of the operands, `^` is their difference, and each bit of the three is the one of its operator |
| Answers.BooleanAnswers | eval.c:1491-1631 | on booleans the bitwise operators are the logical ones |
| Answers.DivisionIsUnique | eval.c:1430-1490 | quotient and remainder are the one pair with a = q * b + r, a remainder smaller than the divisor, and zero or of the sign of the dividend |
| Answers.DivisionAnswers | eval.c:1430-1490 | `/` and `%` have values together, that pair, unless the divisor is zero or the quotient leaves the type |
| Answers.ArithmeticAnswers | eval.c:1277-1408 | a checked operation has its exact value, or none when that leaves the type |
| Answers.WrappingAnswers | eval.c:1307-1429 | a wrapping operation has the value of the type that is congruent to the exact one |
| BitArray.SameBits | util.c:1854-1882 | two integers have the same low bits if and only if they are congruent |
| BitArray.BitwiseExtend | codegen.c:3633-3673 | bitwise operators on sign-extended operands give the extension of the result at the own width |
| CIntegerProof.WrappingHelper | lib/sys/sys.h:153-181 | the wrapping helpers yield the wrapped result in both of their forms, and are undefined exactly for a 16-bit product that overflows `int` without builtins |
| CIntegerProof.PortableProductUndefined | lib/sys/sys.h:336-350 | without overflow builtins the wrapping product of 16-bit values is undefined if and only if the product of the unsigned representations is 2^31 or more |
| HelperProof.CheckedHelper | lib/sys/sys.h:102-319 | a checked helper yields the exact sum, difference or product if it fits the type, and otherwise stops the program, with builtins and with guards alike |
| HelperProof.DivideHelperIs | lib/sys/sys.h:355-415 | the division helpers yield the truncated quotient or remainder, and stop the program on a zero divisor or a quotient that does not fit |
| HelperProof.MulGuards | lib/sys/sys.h:286-319 | four divisions of the bounds tell whether a signed product leaves them |
| EmittedProof.ValueAgrees | codegen.c:1120-1155 | the literal of every value denotes it, that of the least value of a type included |
| EmittedProof.CastAgrees | codegen.c:2570-2599 | a C cast gives the value of the cast at compile time |
| EmittedProof.NegAgrees | codegen.c:2992-3016 | negation stops the program exactly on the least value |
| EmittedProof.NegWrappingAgrees | codegen.c:3018-3039 | `~x + 1` through the wrapping helper is wrapping negation |
| EmittedProof.BitNotAgrees | codegen.c:3041-3054 | complementing in the promoted type and casting back is complementing |
| EmittedProof.ShlBody | codegen.c:3259-3289 | the emitted left shift, with its arm for counts that shift everything out, is that of the evaluator |
| EmittedProof.ShrBody | codegen.c:3291-3319 | the emitted right shift, with its over-shift arm, is that of the evaluator |
| EmittedProof.CompareAgrees | codegen.c:3321-3403 | comparisons agree; a comparison of bytes compares their C values |
| EmittedProof.BinaryAgrees | codegen.c:3633-3673 | bitwise operators agree on integers, booleans and bytes |
| EmittedProof.EmittedText | codegen.c:2206-2242 | the emitted text computes the value, stops the program exactly where there is none, and is never undefined, for every expression in which no evaluated comparison of bytes and no evaluated 16-bit product is one of those that C decides differently |
| EmittedProof.PortableExactly | codegen.c:2206-2242 | the text of an expression and of every operand that is evaluated agrees with compile-time evaluation if and only if each evaluated comparison of bytes compares alike in C and no evaluated 16-bit product overflows `int` |
| EmittedProof.EvaluationAgreesWithC | eval.c:1165-1637 | whenever compile-time evaluation yields a value, the emitted C text yields the same one |
| EmittedProof.EvaluationFailsWithC | eval.c:1020-1163 | evaluation yields a value if and only if the C text does and every operand that the text skips has a value |
| EmittedProof.ShortCircuitDiffers | eval.c:1171-1172 | `false and e` fails at compile time for every `e` that fails, and is false at run time |
| EmittedProof.ByteInC | codegen.c:2570-2599 | where char is signed, the C value of a byte expression is the byte, or the byte less 256 where casts, complements and bitwise operators make it a negative char |
| EmittedProof.ByteComparisonExactly | codegen.c:3321-3403 | where char is signed, a comparison of two bytes agrees with C if and only if their C values have one sign or the signs compare as the bytes do; for `==` and `!=`, unless the bytes are equal and just one is negative in C |
| EmittedProof.ByteComparisonDiffers | codegen.c:2578-2584 | where char is signed, the complement of a byte does not equal its literal in C for half of all bytes |
| BitArrayObject.Compl | util.c:776-794 | inverts every bit in place |
| BitArrayObject.TwosComplementNeg | util.c:796-823 | negates in place, modulo two to the length |
| BitArrayObject.Shiftl | util.c:825-851 | shifts in place, one position at a time, as the specification does at once |
| BitArrayObject.Shiftr | util.c:853-880 | shifts in place and fills from the left |
| BitArrayObject.BigintToBitarr | util.c:1854-1882 | writes the two's complement bits, and fails exactly when the magnitude needs more bits |
| BitArrayObject.BitarrToBigint | util.c:951-986 | reads the value back, with or without a sign |
| Evaluator.Pack | eval.c:123-127 | eight bits a byte, packed by shifting and or-ing |
| Evaluator.ToBytes | eval.c:74-131 | the bytes of a value hold its bits |
| Evaluator.Unpack | eval.c:782-799 | unpacking returns the packed bits, with copies of the extension bit past the last byte |
| Evaluator.EvalCast | eval.c:745-832 | the loops over bytes and bits compute the cast |
| Evaluator.EvalBinary | eval.c:1491-1631 | the loops over bit arrays compute the bitwise operators |
| Evaluator.EvalWrapping | eval.c:1358-1378 | never reaches its unreachable branch |
| Evaluator.EvalArith | eval.c:1277-1306 | fails exactly when the exact result is out of range |
| Evaluator.EvalRvalue | eval.c:181-239 | evaluates every expression to the value of the specification, and fails where it has none |
| LayoutProof.SizesFit | resolve.c:2612-2628 | every alignment is a power of two that divides the size |
| LayoutProof.OffsetIsLeast | resolve.c:2582-2586 | a member starts at the least suitably aligned offset at or after the end of the previous one |
| LayoutProof.WithinStruct | resolve.c:2618-2628 | a member that has a size ends before the struct does |
| LayoutProof.EmittedFieldsAgree | codegen.c:887-924 | C's layout rule, applied to the emitted fields and padding bytes, puts every member that has a size at its recorded offset |
| LayoutProof.EmittedLayout | codegen.c:973-985 | both static assertions emitted beside a type hold: C gives it the size and the alignment of the model |
| LayoutPaths.PartInsideAndAligned | eval.c:1711-1779 | along every access path a part that has a size lies inside the root object and is aligned wherever the object is |
| LayoutPaths.DivergingPartsApart | eval.c:1752-1760 | two paths that part at an array element or a struct member lead to parts that do not overlap |
| LayoutPaths.DesignatedAtOffset | codegen.c:2890-2909 | reading a part by its C name and addressing it by the folded offset reach the same bytes |
| LayoutAccess.AcceptedExactly | eval.c:1711-1782 | the folding accepts exactly the paths in which every index is below the count of its array and every field is a member, and finds the type of the part |
| LayoutAccess.AcceptedAsInC | eval.c:1739-1749 | it accepts a path to a part with a size if and only if C accepts the spelling: each member is a field of the emitted type and each subscript is below the length of the C array |
| LayoutAccess.ElementOfByte | eval.c:1743-1757 | every byte of an array lies in exactly one element that is accepted |
| LayoutAccess.DataReached | eval.c:1767-1782 | a byte of an object holds data if and only if an accepted path leads to a scalar or slice around it |
| LayoutPaths.EmptyPartOutside | resolve.c:2582-2598 | a part of size zero may start past the end of its struct |
| LayoutObject.Aggregate.AddToStruct | resolve.c:2582-2628 | adds one member to the running layout |
| LayoutObject.Aggregate.AddToUnion | resolve.c:2760-2789 | adds one alternative |
| LayoutObject.Aggregate.CompleteStruct | resolve.c:2458-2673 | completes a struct in place with the layout of its member variables, lists it once, and fails exactly on a member without a usable type |
| LayoutObject.Aggregate.CompleteUnion | resolve.c:2675-2842 | the same for a union |
| LayoutObject.Aggregate.Settle | resolve.c:2637-2644 | the type is complete when no member variable is still to come |
| LayoutObject.StructFields | codegen.c:887-924 | the loop over members and padding offsets emits the specified fields |
| LayoutObject.UnionFields | codegen.c:925-950 | the buffer and the alternatives of a union |
| OrderCycles.OrderingIsTopological | order.c:137-178 | a successful ordering lists every declaration once, extend declarations last in source order, and every reference goes to an earlier declaration or to a struct, union or enum that was marked early and leads back; and there is no cycle of references made before a mark |
| OrderCycles.CircularIsCycle | order.c:143-163 | a circular dependency is only reported for a real cycle, which the reported declarations hold |
| Occurrences.RefersExactly | order.c:381-643 | the walk over a declaration arrives at another one if and only if a symbol occurs in the first that means the second; what is passed over is named: template declarations, the type of list and slice literals, and template arguments of a symbol that starts with `typeof` |
| Occurrences.HardExactly | order.c:217-345 | it does so before the mark if and only if the symbol occurs outside of the members of a struct, union or enum |
| Occurrences.MeansExactly | order.c:583-643 | a symbol means the declaration of its first name; from the root, or when that name is not declared here, the one that follows the namespace |
| Occurrences.OccurrencesComeFirst | order.c:671-701 | after a success every symbol that occurs means an earlier declaration, or one that was marked early and leads back |
| SourceOrders.OrderableExactly | order.c:137-178 | ordering a module succeeds if and only if every cycle whose first reference is made before a mark has another declaration that plain depth-first reachability in source order comes to before the first one |
| SourceOrders.EveryOrderExactly | order.c:690-692 | every source order of the declarations succeeds if and only if there is no cycle that begins with a reference made before a mark |
| SourceOrders.StuckInSomeOrder | order.c:226-239 | each such cycle gives a source order that fails: the one with the first declaration of the cycle moved to the front |
| SourceOrders.FirstStops | order.c:143-163 | the walk fails on such a cycle of the first declaration of the source |
| ModuleOrder.OrderMatters | order.c:226-239 | a struct and a constant that refer to each other are ordered with the struct first and circular with the constant first |
| ModuleOrder.OrdererNew | order.c:60-105 | fails exactly on a redeclaration, and drops repeated extern declarations |
| ModuleOrder.CheckExtends | order.c:679-688 | finds the first extend declaration that another declaration follows |
| ModuleOrder.OrderModule | order.c:671-701 | each of the four outcomes of ordering a module holds exactly what it says |
| OrdererObject.Orderer.Tldecl | order.c:137-178 | the three states and the stack of dependencies change as specified |
| OrdererObject.Orderer.Decl | order.c:180-379 | the walk over every kind of declaration |
| OrdererObject.Orderer.LookupName | order.c:121-135 | the first declaration of the name that does not extend |
| OrdererObject.Orderer.ExprWalk | order.c:381-496 | the walk over expressions |
| OrdererObject.Orderer.TypeWalk | order.c:509-581 | the walk over types |
| OrdererObject.Orderer.SymbolWalk | order.c:583-642 | the walk over a symbol: the arguments, then the element that names a declaration of this module |
| OrdererObject.Orderer.NameWalk | order.c:654-669 | a name that means a declaration orders it |
| ParserComplete.ParseExactly | parse.c:1285-1310 | the parser returns a tree and leaves some tokens if and only if the tokens before those are the tree's own, the tree is well formed at the precedence, and what is left cannot continue it |
| ParserComplete.ParseIsUnique | parse.c:1116-1163 | no tokens are those of two trees |
| ParserClasses.TighterFirst | parse.c:100-109 | of two operators of different classes (or; and; comparisons; sums; products) the one of the tighter class takes its operands first, on either side |
| ParserClasses.LeftFirst | parse.c:1285-1310 | any two operators of one class take their operands from the left |
| ParserClasses.PrefixBeforeBinary | parse.c:1600-1621 | each of the prefix operators binds tighter than every binary operator |
| ParserClasses.DotBeforePrefix | parse.c:1567-1598 | dereference and member access bind tighter than a prefix operator |
| ParserClasses.BracketsBeforePrefix | parse.c:1509-1565 | calls and indexing bind tighter than a prefix operator |
| ParserClasses.InParentheses | parse.c:1600-1621 | `startof` and `countof` take their operand in parentheses and bind like a name |
| ParserClasses.CastBeforeBinary | parse.c:1397-1507 | a cast binds like a prefix operator |
| ParserClasses.OthersEnd | parse.c:1116-1166 | every other token ends the expression |
| ParserClasses.BinaryNests | parse.c:1724-1737 | in every tree that the parser returns a binary operator has no looser one directly on its left, and only tighter ones on its right |
| ParserClasses.PrefixNests | parse.c:1600-1621 | a prefix operator takes no binary expression |
| ParserClasses.PostfixNests | parse.c:1238-1283 | a postfix operator follows no binary expression, no cast and no prefix operator |
| ParserComplete.LeftAssociative | parse.c:1724-1737 | binary operators of one precedence associate to the left |
| ParserSound.ExprSound | parse.c:1285-1310 | every successful parse consumes exactly the tokens that its tree is written with |
| ParserComplete.ExprParsed | parse.c:1397-1507 | every well-formed tree parses to itself before any tokens that do not continue it |
| ParserObject.Parser.Advance | parse.c:252-261 | the two tokens of lookahead move on |
| ParserObject.Parser.ExpectCurrent | parse.c:279-294 | succeeds exactly on the expected token |
| ParserObject.Parser.ReadExprPrecedence | parse.c:1285-1310 | the loop leaves the tree and the tokens of the specification |
| ParserObject.Parser.ReadNud | parse.c:1173-1236 | dispatch on the first token of an operand |
| ParserObject.Parser.ReadUnary | parse.c:1600-1621 | a unary operator and its operand |
| ParserObject.Parser.ReadParen | parse.c:1397-1507 | a grouped expression, or what follows a type |
| ParserObject.Parser.ReadElements | parse.c:1440-1461 | the elements of a list, with an ellipsis or a trailing comma |
| ParserObject.Parser.ReadArguments | parse.c:1509-1533 | the arguments of a call |
| ParserObject.Parser.ReadInitializers | parse.c:2018-2039 | the initializers of a struct or union value |
| ParserObject.Parser.ReadLed | parse.c:1238-1283 | dispatch on an operator after an operand |
| ParserObject.Parser.ReadBinary | parse.c:1724-1737 | a binary operator takes a right operand that binds tighter |
| ParserObject.Parser.ReadBrackets | parse.c:1535-1565 | an index or a slice |
| ParserObject.Parser.ReadSymbol | parse.c:1739-1801 | a path of names |
| ParserObject.Parser.ReadElement | parse.c:1803-1820 | a name and its template arguments |
| ParserObject.Parser.ReadType | parse.c:2085-2128 | a type |
| ParserObject.Parser.ReadArrayOrSlice | parse.c:2190-2219 | an array or a slice type |
| ParserObject.Parser.ReadTypeof | parse.c:2296-2312 | the type of an expression |
| TypeName.SameName | ast.c:304-452 | two types with one printed name are the same type, whatever they are made of |
| TypeTable.GuardIsExact | ast.c:738-766 | the guard on array sizes lets through exactly the products that neither wrap 64 bits nor exceed the greatest object size |
| TypeTable.SameObject | ast.c:691-789 | over any history of requests, two types are one object if and only if they have one structure |
| TypeTable.SliceSize | ast.c:414-452 | the size of every slice type is that of its start pointer's type and of its count, equal to the size in the layout of types and to that of the emitted C struct |
| TypeTable.EmissionOrder | codegen.c:4057-4066 | the single loop over the list of types defines each C type after its parts if and only if no array with a size was made before its struct was complete |
| TypeTable.ArrayInItsStruct | ast.c:738-766 | an array of a struct made inside that struct is listed before it and has a size that is not that of its elements |
| TypeTable.Context.Lookup | ast.c:1248-1262 | the latest entry of a name |
| TypeTable.Context.Enter | ast.c:715-736 | a new type joins the table and the list once, and what was known stays known |
| TypeTable.Context.UniquePointer | ast.c:715-736 | returns the known pointer type or makes it, one word large |
| TypeTable.Context.UniqueSlice | ast.c:768-789 | the pointer type comes before the slice type, which is two words large |
| TypeTable.Context.UniqueArray | ast.c:738-766 | fails exactly when the size is out of range; otherwise the size is that of its elements, unless the array was made too early |
| TypeTable.Context.UniqueFunction | ast.c:691-713 | one function type for one signature, one word large |
| TypeTable.Context.UniqueAggregate | resolve.c:6301-6361 | one type for one list of members; fails exactly on a new type with an unsuitable member |
| TypeTable.Context.Declare | resolve.c:2099-2164 | a declared type gets an object of its own |
| TypeTable.Context.AddMember | resolve.c:2543-2628 | a struct being completed gets one more member, and joins no list yet |
| TypeTable.Context.Complete | resolve.c:2630-2649 | a completed struct joins the list after its members |
| TypeTable.Context.Bind | resolve.c:2297-2315 | fails exactly on a redeclaration |
| TemplateWalk.StepDrops | resolve.c:6614-6616 | completing a function drops the pending count of its depth and leaves those of smaller depths alone: the walk over the growing list ends |
| TemplateProof.SuccessIsComplete | resolve.c:758-1123 | after a success the known instances are exactly those that can be reached, and each has what it asks for |
| TemplateProof.StopsAtLongChain | resolve.c:1186-1202 | the run stops only at a chain of one more instance than allowed, each asking for the next |
| TemplateOnce.ShortChainsSucceed | resolve.c:918-931 | a program without such a chain is resolved |
| TemplateProof.InfiniteIsStopped | resolve.c:1186-1202 | a program that reaches infinitely many instances never succeeds |
| TemplateLoops.RepetitionIsLoop | resolve.c:940-960 | the chain at which the run stops repeats an instance only if it is a function instance and signatures and members alone lead back to it |
| TemplateLoops.SignatureLoopStops | resolve.c:940-960 | with function instances whose signatures lead to each other in a loop the run never succeeds, however few they are |
| TemplateLoops.OwnSignature | resolve.c:953-960 | an instance whose signature mentions itself is asked for until the chain is that one instance, seventeen times |
| TemplateOnce.MadeExactlyOnce | resolve.c:940-965 | after a success every known instance has put each of its functions on the list once and in order, and nothing else is on it but those of the declarations |
| TemplateOnce.RedeclaredIsLoop | ast.c:1214-1224 | an instance is entered a second time only if it is a reachable function instance to which signatures and members lead back |
| TemplateOnce.OrderOfRequests | resolve.c:953-960 | a function and a struct template that need each other: an error when the function is asked for first, a success when the struct is |
| TemplateProof.SelfCall | resolve.c:881-885 | a function instance that calls itself is known the second time, so no chain of calls is too long for it |
| TemplateObject.Resolver.GetInstance | resolve.c:758-1123 | an instance is made once, and the chain is restored |
| TemplateObject.Resolver.ActAll | resolve.c:1032-1072 | what an instance asks for is asked for in order |
| TemplateObject.Resolver.CompleteFunction | resolve.c:3053-3121 | a body is resolved under the chain of its function |
| TemplateObject.Resolver.ResolveModule | resolve.c:6466-6619 | the declarations, and then the list that grows while it is walked |
| LoadingProof.LoadsExactly | sunder.c:397-412 | loading succeeds if and only if every file that the root reaches exists and none of them is on a cycle of imports |
| LoadingProof.LoadsEachOnce | resolve.c:1742-1749 | each module that the root reaches is loaded once, after all its imports were loaded and merged |
| LoadingProof.FailureIsReal | resolve.c:1746-1748 | a failure names a reachable module that is missing or lies on a cycle |
| LoaderObject.Loader.LookupModule | sunder.c:414-425 | finds the module of a path if there is one |
| LoaderObject.Loader.LoadModule | sunder.c:397-412 | a module joins the list before its imports are loaded, and is loaded after them |
| LoaderObject.Loader.ImportAll | resolve.c:1752-1759 | the imports in order |
| LoaderObject.Loader.ImportFile | resolve.c:1643-1750 | loads what is not on the list, and fails on what is being loaded |
| StaticNames.DistinctExactly | resolve.c:456-476 | over every run of reservations and registrations the registered names are distinct if and only if no two requests for one name overlap, when no request ends in a dot and a number |
| StaticNames.ClashNeedsOverlap | resolve.c:569-577 | for all requests: two registered symbols share a name only if their reservations overlap and some numbers make the same name of both |
| StaticNames.OverlapClashes | resolve.c:4429-4463 | two overlapping reservations of one name always end in a shared name |
| StaticNames.ClashingNames | resolve.c:515-532 | numbers make the same name of two requests if and only if the requests are equal, or one is the other with a dot and a number |
| StaticNames.StaysDistinct | resolve.c:1919-1934 | reserving and registering one symbol after the other keeps all names distinct |
| StaticNames.TakenBound | resolve.c:543-562 | no more numbers are tried than there are registered names, and one |
| StaticNames.Statics.NormalizeUnique | resolve.c:534-567 | the search ends with the least number that makes the name free |
| StaticNames.Statics.Register | resolve.c:569-577 | the name joins the list |
| StaticNames.Statics.DeclareAll | resolve.c:1919-1934 | a run without overlap keeps the names distinct |

## Findings

What the compiler does not do, with an input and the exact condition.

| finding | input | condition | lemmas |
|---|---|---|---|
| A `when` without a selected arm makes the compiler forget the pending defers (resolve.c:3213-3214, 3148-3150): they do not run, or the walk at the end of an enclosing block dereferences NULL. | `defer cleanup(0); when false { }` | The emitted code is the lowering if and only if every such `when` is reached with no defer pending. | `LostDeferExample`, `LostWalkHitsNull`, `BlockDefersExact`, `CompiledExactly` |
| A `break` or `continue` that leaves a defer body, copied to a `return` in a deeper loop, leaves the deeper loop. | `for true { defer { break; } for true { return; } mark(0); }` | The copy's jump goes to the defer's loop if and only if the copy stands in that loop and in no deeper one. Meaning is preserved when no `return` stands in a deeper loop than a pending jumping defer; a jumping defer whose copies all stand in its own loop is accepted. | `JumpInDeferExample`, `JumpTarget`, `LoweringPreservesMeaning` |
| A `return` in a loop in a defer body that another defer turns into a jump still overwrites the stored return value. | `defer { for true { defer { break; } return 5; } } return 3;` returns 5 | No `return` with a value stands in a loop of a defer body while a jumping defer of that loop is pending (the second clause of `SourceLang.ReturnSafe`). | `CancelledReturnExample`, `LoweringPreservesMeaning` |
| Ordering depends on the source order. | `struct S { const c = f; }` and `const f = sizeof(S);`: ordered with the struct first, circular with the constant first | Every source order succeeds if and only if no cycle begins with a reference made before a mark. A given source order succeeds if and only if on every such cycle depth-first reachability in that order comes to another declaration first. | `OrderMatters`, `EveryOrderExactly`, `OrderableExactly` |
| An array of a struct that is made inside the struct is laid out from the size so far and emitted before its elements. | a struct `node` with one member of 8 bytes and then a pointer to `[3]node`: the array gets 24 bytes and `node` 16 | C definitions follow their parts if and only if no such array has a size. | `ArrayInItsStruct`, `EmissionOrder` |
| Where `char` is signed, comparing bytes differs from compile-time evaluation: literals stay ints, casts and complements become chars. | the complement of the byte `v` against its literal `0xff - v`, for `v` below 0x80 | A comparison agrees if and only if the C values have one sign or the signs compare as the bytes do; `==` and `!=` differ exactly where the bytes are equal and one of the two is negative in C. | `ByteComparisonExactly`, `ByteInC`, `ByteComparisonDiffers` |
| Compile-time `and` and `or` evaluate both operands. | `false and e` where `e` fails | Where the C text yields a value, evaluation does if and only if every operand that the text skips has a value. | `ShortCircuitDiffers`, `EagerExactly`, `EvaluationFailsWithC` |
| Without overflow builtins the wrapping product of 16-bit values is computed in `int`. | `65535 *% 65535` | Undefined if and only if the product of the unsigned representations is 2^31 or more. | `PortableProductUndefined`, `PortableProductExample` |
| Two static symbols can get one name when one is reserved before the other is registered. | two requests for one name that overlap | Names are distinct if and only if no two requests for one name overlap. | `OverlapClashes`, `DistinctExactly` |
| The limit on template depth does not see a function that calls itself, and one instance alone can exceed it. | a template function whose body asks for the same instance; one whose signature does | The run stops at the limit only with a chain of seventeen requests. The chain repeats an instance only where signatures and members alone lead back to it. With a loop of function instances through signatures alone, or with infinitely many instances, the run never succeeds. | `SelfCall`, `OwnSignature`, `StopsAtLongChain`, `RepetitionIsLoop`, `SignatureLoopStops`, `InfiniteIsStopped` |
| Whether templates that need each other resolve depends on which is asked for first. | a function template whose signature needs a struct template that has a member whose type needs the function | The run ends in a redeclaration only where signatures and members lead from a function instance back to it; which request comes first decides. After a success every instance was made once. | `OrderOfRequests`, `RedeclaredIsLoop`, `MadeExactlyOnce` |
| A part of size zero can start past the end of its object. | a struct of a one-byte member and an empty array of 8-byte elements | Parts with a size never do. | `EmptyPartOutside`, `PartInsideAndAligned` |

## Left out

- LoweringProof.LoweringPreservesMeaning: asks that every `return` be safe (`SourceLang.SafeReturns`): a syntactic condition on defers left by a jump, which also rejects a `return` that is never reached; whether it is reached is undecidable. Values are integers and operators are parameters, so types, pointers and aggregate copies are not part of it.
- ResolverProof.CompiledIsLowered: asks for `NoLost`, which `LostDefers.CompiledExactly` shows to be exact.
- EmittedProof.EvaluationAgreesWithC: covers integers, booleans, bytes and enums on targets with words of at least 32 bits, and asks that the expression be `Portable`: each evaluated comparison of bytes agrees with C (`ByteComparisonExactly` is exact for one comparison) and each evaluated 16-bit product is defined (`PortableProductUndefined` is exact for one product). `PortableExactly` shows this condition to be exact for an expression together with its parts; alone, an outer operator can hide a part that differs.
- EmittedProof.EvaluationFailsWithC: asks for `Portable` too, as does `EmittedProof.EmittedText`.
- StaticNames.DistinctExactly: exact for requests that do not end in a dot and a number, which no identifier does; for the others `ClashNeedsOverlap` and `OverlapClashes` give one direction each.
- StaticNames.Statics.NormalizeUnique: fewer than 2^32 - 1 registered symbols, so the counter does not wrap.
- TemplateProof.InfiniteIsStopped: does not say which error ends the run: an instance that is made twice can be met before the limit on depth is.
- TemplateLoops.SignatureLoopStops: the same.
- LayoutPaths.PartInsideAndAligned: no bound for parts of size zero, which `EmptyPartOutside` shows false.
- LayoutObject.Aggregate.CompleteStruct: sums of member sizes are unbounded; the compiler has no guard against their overflow.
- ParserComplete.ParseExactly: starts from tokens; struct, union and enum types written inside expressions, and the warning about template arguments after `:::`, are not modelled. A trailing comma is part of the tree.
- TypeTable.SameObject: declared types are taken to have different printed names, and enums without a name are not modelled.
- Floating point in literals, evaluation and emission: no exact model of rounding.
- Statements and declarations in the parser, and the lexer: a straight transcription of the grammar.
- assert statements, and assignment to anything but a variable: they move values between places without touching scopes or defers.
- Mangled C names, apart from the numbers that make locals and statics different.
- Files, search paths, directory imports, environment and the C compiler: loading sees a map from paths to imports.
- Diagnostics, unused-symbol warnings, memory management and freezing.
- Struct completion with nested member functions and constants: only member variables have a layout.
