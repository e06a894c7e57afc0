# A verified model of OpenDarkBASIC

OpenDarkBASIC compiles DarkBASIC programs to LLVM code; its command line tool is generated from a
description of actions and their dependencies. This project models the parts of both that carry
the most intricate rules, and proves what they are relied on for. `dafny verify dfyconfig.toml`
checks all of it.

## What is modelled, and what is proved

**Code generation** (`Words`, `Ir`, `Llvm`, `Semantics`, `Lowering`, `Typing`, `CodeGenerator` and the
proofs about them). `Ir` and `Semantics` give the intermediate representation a small-step semantics with
loops, labels, gotos, a stack of gosubs and a record of all calls; `Llvm` gives one to basic blocks
with registers, branches, indirect branches and the 32-slot return stack. Integers are fixed-width
words that wrap around; shifts by the width or more, divisions by zero and overflowing divisions are
faults on both sides. The class `CodeGenerator` emits one instruction after the other and keeps the
tables of labels, loop exits, return points and indirect branches; it is proved equal to the
functions in `Lowering`, about which everything else is proved:

- the generated function halts with the same result, memory and calls as its source, goes wrong
  exactly when the source does (a gosub nested deeper than 32 counts as going wrong), and runs
  forever exactly when the source does;
- the function is well-formed (every block ends in its only terminator, every target is a block
  placed once, every indirect branch lists every return point once, nothing returns a value from
  the void function, operands, stored values and arguments have the types they must have) exactly
  when all labels jumped to are placed in it, it has no explicit return, it uses no value of a user
  function, all of which are void in the code, and all its calls are complete;
- a for loop runs its body as often as the values of its counter say, for steps of either sign, and
  is left then exactly when the counter still fits in 32 bits. The body may read and write any
  variable but write the counter, and end and step may be any expressions that keep their values in
  this run;
- a function without labels and jumps does what a direct recursive interpreter of blocks, branches, loops
  and exits says (`StructuredPrograms`);
- what types and operators mean is said in plain numbers as well, without the definitions that semantics and code
  share (`Arithmetic`), and every variable keeps a value in the range of its type throughout every run
  (`MemoryRanges`); `CodeLayout` and `Fragment` do the same for where blocks and variables are, the depth of the
  return stack, and what the generator has code for.

**The front half of the compiler** (`AbstractSyntax`, `TypeMeaning`, `Faults`, `AstConverter`, `LabelResolution`,
`TypedIr`, `Compilation`, `Acceptance`, `SyntaxTrees`, `BitwiseNotElimination`). `Faults` says of a syntax tree alone
whether there is anything in it to complain about: a redeclaration, an exit outside of loops, an unknown name, a wrong
number of arguments, a conversion there is none for. A program without faults is converted, and, where overloads of
equal score return the same type, only such a program is. In what is returned, operands, assignments, conditions,
loop bounds and arguments have matching types. That program is the one written: commands are resolved to the overload
that their arguments choose, exits leave the innermost loop, each jump leads to the first label of its name, wherever
that is in the program, and the variables of a function are those that occur in it, one for each name with an
annotation, of the type declared or else of the annotation's. `TypeMeaning` says what types, conversions and scores
amount to without the functions that compute them. `Compilation` joins the two halves: there is code exactly if every
function is within the generator's means and its code is well-formed, and the code behaves as compiler correctness
says; `Acceptance` says in terms of the tree when that is so. The pass over the syntax tree edits nodes through parent
pointers; no binary bitwise-not is left if it succeeds, and whatever evaluated before evaluates to the same in any case.

**The action generator and the program it generates** (`Graphs`, `CycleCheck`, `Priorities`,
`ImplicitRequirements`, `Reduction`, `ActionTable`, `CommandLine`, `Scheduler`, `TieOrder`). The passes work in
place on arrays; the generated program grows its list of actions and empties a priority queue in
which ties come in any order. The main theorems cross the two programs: checks and order at run time
use the reduced tables, and mean what the author's dependencies say.

**Commands and tokens** (`CommandMatcher`, `TokenMerging`, `Driver`). The narrowing binary search with its
stack equals a linear scan of the table, and what that scan means is proved. The driver's look-ahead
queue pushes to the parser exactly what a recursive definition on the token stream says, never scans
past the end, and frees or hands over each string once.

**Reference counting** (`RefCounting`). Objects, count cells, strong and weak handles, cascading
deletion. Counts equal the number of handles in every state; an object exists exactly as long as it is held
or owned by a cycle of owners; a reset or an assignment is safe exactly when what it needs afterwards is
still held, or owned by a cycle, without the handle.

## Where the code differs from what it or its documentation says

Each with an input that shows it, and the exact condition under which the code does meet its promise.

- `WellFormed.GotoElsewhereIsRefused`: a goto to a label that is not placed in the function leaves a branch to a
  block outside it. The converter does not prevent this: labels are looked up across functions (`ASTConverter.hpp`
  keeps one table), and a label that never comes is no error. `WellFormed.WellFormedExactly` and, in terms of what
  was written, `Acceptance.ConvertedWellFormedExactly` have the condition.
- `WellFormed.ExplicitReturnIsRefused`: every generated function has type void, so one that returns a value is
  refused by LLVM, even if the return is its last statement. `WellFormed.WellFormedExactly` has the condition.
- `WellFormed.FunctionValueIsRefused`, `Acceptance.FunctionResultIsRefused`: for the same reason `x = foo()` stores a
  value of type void, although the converter gives the call the type of the return expression. LLVM refuses the
  function exactly if a value of a user function is used (`WellFormed.WellFormedExactly`); in terms of the tree,
  functions may only be called as statements, but for the right operand of a binary bitwise-not, which is forgotten
  (`Acceptance.ConvertedWellFormedExactly`).
- `CycleCheck.CycleWithoutRoots`: two actions that depend on each other pass the cycle check, which
  starts at nodes nobody depends on. `CycleCheck.PassesExactly` says which cycles it finds.
- `AbstractSyntax.FirstIsTaken`: a command called without arguments is resolved to its first overload even if that
  one has parameters. `AbstractSyntax.CallsAreCompleteExactly`: calls always have an argument for each parameter
  exactly if the first overload has none. The call then lacks arguments of the thunk it calls, and LLVM refuses the
  function: `WellFormed.MissingArgumentIsRefused`, `Acceptance.BareCommandIsRefused`, with the condition in
  `WellFormed.WellFormedExactly` and `Acceptance.ConvertedWellFormedExactly`.
- `RefCounting.NextIsLost`: `list = list->next` reads a field of an object that the assignment has
  just deleted. `RefCounting.Heap.AssignFrom` says exactly when an assignment is safe.
- `RefCounting.SelfOwned`: resetting the field of an object that only this field holds releases the object twice,
  because the field is set to null only after the release, in which the destructor of the object finds it still set.
  `RefCounting.Heap.Reset`: a reset is safe exactly if the object that the handle is part of is still held, or owned
  by a cycle, without the handle; `RefCounting.WithoutCycles`: it always is in a heap without cycles.
- `CommandMatching.HitInsideWord`: a hit may end inside a word. `CommandMatching.AtWordEndExactly`: hits never do
  exactly if, wherever a word ends inside a command, an earlier command of the table starts in the same way.
- The empty text is never matched, not even by an empty command (`CommandMatching.WholeExactly`).
- `TokenMerging.LeadingIntegerIsNotMerged`: the comment in the driver says that no space is put between an integer
  and the symbol behind it; for the first token of a run there is one. `TokenMerging.DescribedExactly`: the text
  looked up is the one described exactly if the run does not begin with an integer, or a type annotation follows it.
- `TieOrder.EitherOrder`: a comment in the generated program says that actions of equal priority run in the order
  of the list, which the queue does not promise. `TieOrder.ListOrderExactly`: as long as no meta action turns into
  another action they always do exactly if no two different entries of the list have the same priority.
  `TieOrder.OneOrderExactly`: whatever meta actions turn into, there is only one order exactly if no queue that comes
  up has two different entries of the least priority.

## Model

| member | source | states |
|---|---|---|
| `CompilerCorrectness.CompilerCorrect` | odb-compiler/src/ir/codegen/CodeGenerator.cpp:538-831 | Where the code of a function has all the values it uses and all the arguments of its calls, it halts with the results, memory and calls of its source, goes wrong iff the source does, and diverges iff the source does |
| `CompilerCorrectness.RunsAlike` | odb-compiler/src/ir/codegen/CodeGenerator.cpp:538-831 | At every point of a run that has not ended, the generated code has made the same calls, has the same memory and the same number of pending gosubs |
| `CompilerCorrectness.LimitMatters` | odb-compiler/src/ir/codegen/CodeGenerator.cpp:880-925 | Counting a gosub nested deeper than the 32 slots as a fault changes a run iff the nesting exceeds them |
| `CodeLayout.LimitIs32` | odb-compiler/src/ir/codegen/CodeGenerator.cpp:837-837 | With the limit a run is the one without it as long as at no point of it more than 32 gosubs are open, and a fault otherwise |
| `CompilerCorrectness.Follows` | odb-compiler/src/ir/codegen/CodeGenerator.cpp:538-733 | Any number of source steps is matched by code that reaches a matching state, or ends alike |
| `CompilerCorrectness.Reflects` | odb-compiler/src/ir/codegen/CodeGenerator.cpp:538-733 | Whenever the code stops, the source has stopped with the same outcome |
| `StructuredPrograms.StructuredCorrect` | odb-compiler/src/ir/codegen/CodeGenerator.cpp:538-831 | The code of a function without labels and jumps halts with the result, memory and calls of a recursive interpreter, goes wrong iff the interpreter does, and runs forever iff no number of rounds of its loops is enough for the interpreter |
| `StructuredPrograms.BlockAgrees` | odb-compiler/src/ir/codegen/CodeGenerator.cpp:580-692 | From any state in front of a block without labels and jumps, the run comes to where the interpreter says: behind the block, behind the loop an exit names, to the end of the function, or to a fault; if the interpreter runs out of rounds it makes at least as many steps |
| `MemoryRanges.MemoryStaysInRange` | odb-compiler/src/ir/codegen/CodeGenerator.cpp:29-66 | However long a function runs, and when it has halted, each of its variables has a value in the signed range of its type |
| `Simulation.SimStep` | odb-compiler/src/ir/codegen/CodeGenerator.cpp:538-733 | Each source step from a matched state is simulated by at least one step of the code |
| `Simulation.SimGosub` | odb-compiler/src/ir/codegen/CodeGenerator.cpp:567-579 | A gosub pushes its own continuation block and branches to the label, unless the 32 slots are full |
| `Simulation.SimReturn` | odb-compiler/src/ir/codegen/CodeGenerator.cpp:717-724 | A return pops the address of the latest gosub, which is among the destinations of its indirect branch, and goes on behind that gosub; on an empty stack both sides go wrong |
| `Simulation.SimGoto` | odb-compiler/src/ir/codegen/CodeGenerator.cpp:561-566 | A goto reaches the code of its label with the continuation of that place, from wherever it is |
| `Simulation.SimExit` | odb-compiler/src/ir/codegen/CodeGenerator.cpp:604-617 | An exit reaches the block after the loop it names |
| `Simulation.SimTest` | odb-compiler/src/ir/codegen/CodeGenerator.cpp:658-676 | The test of a for loop enters the body or leaves it as sign of step, counter and end say |
| `Simulation.SimIncrement` | odb-compiler/src/ir/codegen/CodeGenerator.cpp:681-688 | The increment adds the step to the counter, wrapping around, and goes back to the test |
| `ExpressionLowering.ExpressionRuns` | odb-compiler/src/ir/codegen/CodeGenerator.cpp:199-536 | If all values used exist, the straight-line code of an expression makes its calls in order, leaves memory and older registers alone and faults iff evaluation does; it computes the value, except for a call of a user function, which is void |
| `ExpressionLowering.ValueHasStaticWidth` | odb-compiler/src/ir/Node.cpp:197-226 | The value of an expression has the width of its static type |
| `Arithmetic.WidthMeaning` | odb-compiler/src/ir/codegen/CodeGenerator.cpp:29-66 | The types with a width are Boolean, Byte, Word, Integer, Dword and DoubleInteger, with 2, 256, 65536, 2^32, 2^32 and 2^64 values in a signed range |
| `Arithmetic.ValueInRange` | odb-compiler/src/ir/codegen/CodeGenerator.cpp:199-536 | The value of an expression of one of these types lies in the range of the type |
| `Arithmetic.LiteralMeaning` | odb-compiler/src/ir/codegen/CodeGenerator.cpp:476-499 | The value of a literal is congruent to the number written, modulo the number of values of its type, and in its range |
| `Arithmetic.CastMeaning` | odb-compiler/src/ir/codegen/CodeGenerator.cpp:199-225 | The value of a cast is congruent to that of its operand, modulo the number of values of the type, and in its range |
| `Arithmetic.CastMeaningInCode` | odb-compiler/src/ir/codegen/CodeGenerator.cpp:199-225 | So is the value that the code emitted for a cast leaves in its register |
| `Arithmetic.ByteOf300` | odb-compiler/src/ir/codegen/CodeGenerator.cpp:199-225 | The code that casts 300 to Byte gives 44 |
| `Arithmetic.SumMeaning` | odb-compiler/src/ir/codegen/CodeGenerator.cpp:281-328 | Sum, difference and product are congruent to those of the numbers, modulo the number of values of the type, and in its range |
| `Arithmetic.NegateMeaning` | odb-compiler/src/ir/codegen/CodeGenerator.cpp:253-262 | So is the negation |
| `Arithmetic.DivisionMeaning` | odb-compiler/src/ir/codegen/CodeGenerator.cpp:329-356 | Quotient and remainder exist iff the divisor is not 0 and it is not the least value divided by -1; then dividend = quotient * divisor + remainder, and the remainder is smaller than the divisor and has the sign of the dividend |
| `Arithmetic.ShiftLeftMeaning` | odb-compiler/src/ir/codegen/CodeGenerator.cpp:361-364 | A shift to the left exists iff its distance is from 0 to the number of bits less one; each place doubles the value, reduced to the range of the type |
| `Arithmetic.ShiftRightMeaning` | odb-compiler/src/ir/codegen/CodeGenerator.cpp:365-370 | A shift to the right exists for the same distances; each place halves the value, rounding down, which keeps the sign |
| `Arithmetic.BitsMeaning` | odb-compiler/src/ir/codegen/CodeGenerator.cpp:371-385 | Bit by bit, the bitwise operators are conjunction, disjunction, difference and negation of the left operand |
| `Arithmetic.ComparisonMeaning` | odb-compiler/src/ir/codegen/CodeGenerator.cpp:386-421 | Comparisons of values in the signed range give -1 (true) or 0 |
| `Arithmetic.ConnectiveMeaning` | odb-compiler/src/ir/codegen/CodeGenerator.cpp:460-463 | Conjunction and disjunction of truth values |
| `LoweringFrames.FrameStatement` | odb-compiler/src/ir/codegen/CodeGenerator.cpp:538-733 | Generating a statement only appends, only to blocks of its own, keeps label numbers injective and lists every return point in every indirect branch |
| `BlockStructure.SealsBlock` | odb-compiler/src/ir/codegen/CodeGenerator.cpp:538-733 | After a sub-list the returned insertion block is the only open one of all the blocks it owns |
| `WellFormed.WellFormedExactly` | odb-compiler/src/ir/codegen/CodeGenerator.cpp:771-831 | The function is well-formed iff every label jumped to is placed in it, it has no explicit return, it uses no value of a user function, and every call has an argument of its type for each parameter |
| `WellFormed.GotoElsewhereIsRefused` | odb-compiler/src/ir/codegen/CodeGenerator.cpp:158-169 | A function that jumps to a label it does not have is not well-formed |
| `WellFormed.ExplicitReturnIsRefused` | odb-compiler/src/ir/codegen/CodeGenerator.cpp:713-716 | A function of which the only statement returns 1 is not well-formed |
| `WellFormed.FunctionValueIsRefused` | odb-compiler/src/ir/codegen/CodeGenerator.cpp:735-741 | A function that stores what a user function returns is not well-formed: user functions are void |
| `WellFormed.MissingArgumentIsRefused` | odb-compiler/src/ir/codegen/CodeGenerator.cpp:92-107 | A function that calls a command with parameters without arguments is not well-formed |
| `Typing.FunctionTypedExactly` | odb-compiler/src/ir/codegen/CodeGenerator.cpp:771-831 | Every instruction of a function is well-typed iff its body uses no value of a user function and its calls are complete |
| `Typing.ExpressionTyped` | odb-compiler/src/ir/codegen/CodeGenerator.cpp:199-536 | The code of an expression is well-typed iff the values used exist and its calls are complete; its result then has the width of the static type, and none for a call of a user function |
| `Typing.ArgumentsTyped` | odb-compiler/src/ir/codegen/CodeGenerator.cpp:523-528 | The code of the arguments is well-typed and they fit the parameters iff all their values exist, their own calls are complete and their static types are those of the parameters |
| `WellFormed.LinkedBlock` | odb-compiler/src/ir/codegen/CodeGenerator.cpp:158-191 | Every block is placed once, branch targets are placed or labels, return points are distinct, and each indirect branch lists exactly the return points |
| `CodeLayout.EntryAllocates` | odb-compiler/src/ir/codegen/CodeGenerator.cpp:776-820 | A function begins with an empty return stack, then allocates its variables in their order, each set to zero |
| `CodeLayout.LoopEndFollows` | odb-compiler/src/ir/codegen/CodeGenerator.cpp:618-638 | The block behind an infinite loop is placed directly behind the last block of the body; all other blocks keep their order |
| `ForLoops.IterationsExactly` | odb-compiler/src/ir/codegen/CodeGenerator.cpp:639-692 | The number of iterations counts the values a, a+s, a+2s, ... that have not passed the end, for either sign of the step |
| `ForLoops.RoundsRun` | odb-compiler/src/ir/codegen/CodeGenerator.cpp:655-689 | If the first n rounds of this run complete without writing the counter, and end and step keep their values in them, n rounds of body and increment follow, after which the counter is a + n*s reduced to 32 bits |
| `ForLoops.ForLoopRuns` | odb-compiler/src/ir/codegen/CodeGenerator.cpp:639-692 | The loop is left after exactly its iterations iff a + n*s fits in 32 bits; otherwise the body is entered again. Bodies, ends and steps may read variables and call functions |
| `ForLoops.ForLoopRunsInCode` | odb-compiler/src/ir/codegen/CodeGenerator.cpp:639-692 | The generated code of the statement evaluates the start, runs the body exactly n times and leaves the counter at a + n*s |
| `ForLoops.SummingIsRegular` | odb-compiler/src/ir/codegen/CodeGenerator.cpp:639-692 | A loop that adds up its counter meets the conditions for any number of rounds |
| `CodeGeneration.CodeGenerator.GenerateExpression` | odb-compiler/src/ir/codegen/CodeGenerator.cpp:199-536 | Appends to the block exactly the code of the expression and returns its operand |
| `CodeGeneration.CodeGenerator.GenerateCall` | odb-compiler/src/ir/codegen/CodeGenerator.cpp:505-528 | Evaluates the arguments in order and appends the call, whose value has the type that the called function has in the code |
| `CodeGeneration.CodeGenerator.GetOrAddLabelBlock` | odb-compiler/src/ir/codegen/CodeGenerator.cpp:158-169 | The block of a label is created at its first mention, outside the function |
| `CodeGeneration.CodeGenerator.AddGosubReturnPoint` | odb-compiler/src/ir/codegen/CodeGenerator.cpp:171-180 | Every indirect branch so far learns of the new return point |
| `CodeGeneration.CodeGenerator.AddGosubIndirectBr` | odb-compiler/src/ir/codegen/CodeGenerator.cpp:182-191 | A new indirect branch learns of all return points so far |
| `CodeGeneration.CodeGenerator.GenerateBlock` | odb-compiler/src/ir/codegen/CodeGenerator.cpp:538-733 | Gives up iff a statement has no code or an exit names a loop not opened before; otherwise tables, blocks and insertion point are those of the specification |
| `CodeGeneration.CodeGenerator.GenerateStatement` | odb-compiler/src/ir/codegen/CodeGenerator.cpp:548-730 | The same for one statement |
| `CodeGeneration.CodeGenerator.GenerateConditional` | odb-compiler/src/ir/codegen/CodeGenerator.cpp:580-600 | Both branches, then the condition in the block before them, then the branches to the block behind |
| `CodeGeneration.CodeGenerator.GenerateInfiniteLoop` | odb-compiler/src/ir/codegen/CodeGenerator.cpp:618-638 | Loop block, exit block moved behind the body, and the branches between them |
| `CodeGeneration.CodeGenerator.GenerateForLoop` | odb-compiler/src/ir/codegen/CodeGenerator.cpp:639-692 | Initialisation, test blocks, body and increment |
| `CodeGeneration.CodeGenerator.GenerateForTests` | odb-compiler/src/ir/codegen/CodeGenerator.cpp:658-676 | The condition block and the three blocks that tell positive and negative steps apart |
| `CodeGeneration.CodeGenerator.GenerateGosub` | odb-compiler/src/ir/codegen/CodeGenerator.cpp:567-579 | Creates the continuation, registers it as return point, pushes it and branches |
| `CodeGeneration.CodeGenerator.GenerateReturn` | odb-compiler/src/ir/codegen/CodeGenerator.cpp:717-724 | Pops the address and branches to it with all return points as destinations |
| `CodeGeneration.CodeGenerator.GenerateFunctionBody` | odb-compiler/src/ir/codegen/CodeGenerator.cpp:771-831 | The whole function: return stack, variables with initial values, statements, and a return if the last block is still open |
| `CodeGeneration.StatementKeeps` | odb-compiler/src/ir/codegen/CodeGenerator.cpp:604-638 | After a statement the tables are consistent, the insertion block exists, and exactly its loops have become known |
| `AstConversion.ChooseOverload` | odb-compiler/src/ir/semantic/ASTConverter.cpp:208-293 | Without arguments the first candidate; otherwise an applicable one of maximal score, and none iff none is applicable |
| `AstConversion.CanConvertArguments` | odb-compiler/src/ir/semantic/ASTConverter.cpp:220-239 | Tells whether every argument can be converted to its parameter |
| `AstConversion.ScoreCandidate` | odb-compiler/src/ir/semantic/ASTConverter.cpp:263-288 | Ten for each exact match and one for each argument of the same kind |
| `AstConversion.AstConverter.EnsureType` | odb-compiler/src/ir/semantic/ASTConverter.cpp:172-193 | Casts iff the type is another one that can be converted, otherwise records an error; without error the result has the target type; stops iff the expression has no type |
| `AstConversion.AstConverter.ConvertExpression` | odb-compiler/src/ir/semantic/ASTConverter.cpp:352-393 | The result is the expression written: the right operand of a binary operation is cast to the type of the left one iff it has another, every command is resolved to the overload its arguments choose; exactly its variables are declared; without error all operands have equal types and all arguments fit. An expression without faults is converted without error, and, if ties return the same, only such an expression |
| `AstConversion.AstConverter.ConvertCommandCall` | odb-compiler/src/ir/semantic/ASTConverter.cpp:194-303 | The command called has the maximal score for the types of the arguments, or is the first one if there are none; arguments are cast to its parameters |
| `AstConversion.AstConverter.ConvertFunctionCall` | odb-compiler/src/ir/semantic/ASTConverter.cpp:305-350 | As many arguments as parameters, each of the type of its parameter; the type of the call is that of the return expression if the function has been converted, and void otherwise; stops if the function is unknown or the number is wrong |
| `AstConversion.AstConverter.ResolveVariableRef` | odb-compiler/src/ir/semantic/ASTConverter.cpp:122-135 | An unknown variable is declared with the type of its annotation; known ones keep their type |
| `AstConversion.AstConverter.ConvertStatement` | odb-compiler/src/ir/semantic/ASTConverter.cpp:395-579 | The result is the statement written; without error it is well typed, an exit leaves the innermost loop, and labels and jumps are numbered and met in order under the names written. A statement without faults is converted without error, and, if ties return the same, only such a statement |
| `AstConversion.AstConverter.ConvertForLoop` | odb-compiler/src/ir/semantic/ASTConverter.cpp:467-490 | Start, end and step have the type of the counter |
| `AstConversion.AstConverter.ConvertBlock` | odb-compiler/src/ir/semantic/ASTConverter.cpp:581-602 | The same for all statements in order |
| `AstConversion.AstConverter.GenerateProgram` | odb-compiler/src/ir/semantic/ASTConverter.cpp:623-682 | A program without faults is returned as one, and, if overloads of equal score return the same type, a program with faults is not; the errors recorded are errors. Main and all functions are then well typed, are what was written, have no label twice and declare exactly the variables that occur in them, one for each name with an annotation, of the type declared or else of the annotation's; and each goto and gosub leads to the first label of its name in the whole program, or to none iff there is none |
| `AstConversion.AstConverter.ConvertProgram` | odb-compiler/src/ir/semantic/ASTConverter.cpp:658-682 | The same before jumps are pointed: labels and jumps are met in the order of main and then the functions |
| `AstConversion.AstConverter.ConvertFunction` | odb-compiler/src/ir/semantic/ASTConverter.cpp:660-673 | A function with a scope of its own, whose variables are those that occur in it, each name with an annotation only once and with the type written |
| `AbstractSyntax.FirstIsTaken` | odb-compiler/src/ir/semantic/ASTConverter.cpp:208-212 | Of two overloads, the first with a parameter and the second without, a call without arguments takes the first |
| `AbstractSyntax.CallsAreCompleteExactly` | odb-compiler/src/ir/semantic/ASTConverter.cpp:208-212 | Every resolved call has as many arguments as parameters iff the first overload has no parameters |
| `TypeMeaning.OperandsExactly` | odb-compiler/src/ir/semantic/ASTConverter.cpp:359-367 | The left operand of a converted binary operation is not cast; the right one is cast iff its own type is another one, and then to the type of the left |
| `TypeMeaning.OperationTypes` | odb-compiler/src/ir/semantic/ASTConverter.cpp:116-120 | Comparisons, conjunctions and disjunctions are Boolean, an exclusive or has no type, every other operation has the type of its left operand |
| `TypeMeaning.TwoPlusThree` | odb-compiler/src/ir/semantic/ASTConverter.cpp:359-367 | 2 + 3 is converted to the sum of two integers, and with a 3 of another type to one with that 3 cast to Integer |
| `TypeMeaning.ConvertibleExactly` | odb-compiler/src/ir/semantic/ASTConverter.cpp:137-170 | Two different types are converted into each other iff both are among the six integer and two floating point types |
| `TypeMeaning.CommandTypesExactly` | odb-compiler/src/ir/semantic/ASTConverter.cpp:78-99 | The type of each kind of parameter; none for X and A |
| `TypeMeaning.AnnotationTypesExactly` | odb-compiler/src/ir/semantic/ASTConverter.cpp:63-76 | The type of each annotation |
| `TypeMeaning.MissingStepIsOne` | odb-compiler/src/ir/semantic/ASTConverter.cpp:476-484 | The counter of a for loop without a step goes up by the integer 1, cast to the type of the counter iff that is another |
| `TypeMeaning.CalleeExactly` | odb-compiler/src/ir/semantic/ASTConverter.cpp:294-303 | A call of a command has the symbols, parameter types and return type of an overload in the index |
| `TypeMeaning.ScoreExactly` | odb-compiler/src/ir/semantic/ASTConverter.cpp:252-288 | The score is ten times the number of exact matches plus the number of other arguments that are, like their parameters, integers, or floating point numbers |
| `TypeMeaning.ExactMatchWins` | odb-compiler/src/ir/semantic/ASTConverter.cpp:252-262 | If some overload has exactly the types of the arguments, the one chosen has |
| `TypeMeaning.ArchetypeIsPreferred` | odb-compiler/src/ir/semantic/ASTConverter.cpp:258-262 | Of overloads for Integer and for DoubleFloat, a 64-bit integer gets the former and a Float the latter, in either order |
| `Faults.DeclaredBeforeUse` | odb-compiler/src/ir/semantic/ASTConverter.cpp:424-440 | An assignment may follow a declaration of its variable but not come before it |
| `Faults.TypeIsUnique` | odb-compiler/src/ir/semantic/ASTConverter.cpp:194-303 | If overloads that tie return the same type, no expression can be given two types |
| `AbstractSyntax.NumberedLabels` | odb-compiler/src/ir/semantic/ASTConverter.cpp:520-538 | Each label is a node of its own: no label is placed twice in a converted function |
| `AbstractSyntax.PointedIsResolved` | odb-compiler/src/ir/semantic/ASTConverter.cpp:520-568 | With the targets of the table of jumps, each jump leads to the first label of the name written at its place |
| `Compilation.CompileProgram` | odb-compiler/src/ir/codegen/CodeGenerator.cpp:833-858 | From the syntax tree to code: there is a program iff the converter succeeds, which it does without faults, and code iff also each function is within the generator's means and its code is well-formed; for main and each function the code then halts, goes wrong and diverges as the converted function does, with the same calls and memory, and that function is the one written |
| `Compilation.ConvertedIsFormed` | odb-compiler/src/ir/semantic/ASTConverter.cpp:623-682 | A converted function within the generator's means has unique labels, variables with values and statements of the right types, and it is generated to its end |
| `Compilation.UsableExactly` | odb-compiler/src/ir/codegen/CodeGenerator.cpp:866-877 | Its code is well-formed iff its jumps stay inside, it has no explicit return, it uses no value of a function and its calls are complete; compiler correctness then applies |
| `Fragment.PlainExactly` | odb-compiler/src/ir/codegen/CodeGenerator.cpp:199-733 | What the generator has code for here: statements but while and until loops; integers of every size, all operators on them but the power and the exclusive or of truth values, negation, casts, and calls that return integers or nothing |
| `Acceptance.ConvertedWellFormedExactly` | odb-compiler/src/ir/codegen/CodeGenerator.cpp:866-877 | In terms of the tree, its code is well-formed iff the first label of each name it jumps to is its own, it has no `exitfunction`, each command called without arguments has a first overload without parameters, and no value of a function is used; for the last it is enough that functions are only called as statements, and necessary unless a binary bitwise-not forgets the result |
| `Acceptance.FunctionResultIsRefused` | odb-compiler/src/ir/semantic/ASTConverter.cpp:343-349 | Whatever `x = foo()` is converted to, its code is not well-formed |
| `Acceptance.BareCommandIsRefused` | odb-compiler/src/ir/semantic/ASTConverter.cpp:208-212 | Nor is that of a command without arguments whose first overload has parameters |
| `Acceptance.BlockAccepted` | odb-compiler/src/ir/semantic/ASTConverter.cpp:305-350 | Calls are complete in the converted block iff no command called without arguments needs some; values exist if functions are only called as statements, and only then unless a bitwise-not forgets one |
| `TypedIr.TypedBlockFormed` | odb-compiler/src/ir/semantic/ASTConverter.cpp:359-367 | A well-typed block within the means of the generator is one that it accepts and that has all that compiler correctness asks of types |
| `TypedIr.TypedBlockHandled` | odb-compiler/src/ir/codegen/CodeGenerator.cpp:604-612 | Its generation is never given up: each exit names a loop that is known |
| `TypedIr.PointingKeepsTypes` | odb-compiler/src/ir/semantic/ASTConverter.cpp:520-538 | Pointing jumps to their labels afterwards keeps the program well typed |
| `LabelResolution.FirstLabelExactly` | odb-compiler/src/ir/semantic/ASTConverter.cpp:520-538 | The first label of a name is the one no other label of that name precedes |
| `LabelResolution.JumpTable.ConvertLabel` | odb-compiler/src/ir/semantic/ASTConverter.cpp:520-538 | Points waiting jumps to the label and forgets them; an older label of the name is kept |
| `LabelResolution.JumpTable.ConvertGoto` | odb-compiler/src/ir/semantic/ASTConverter.cpp:545-556 | Points to the label if known, otherwise waits |
| `LabelResolution.JumpTable.ConvertGosub` | odb-compiler/src/ir/semantic/ASTConverter.cpp:557-568 | The same for gosubs |
| `LabelResolution.JumpTable.ConvertAll` | odb-compiler/src/ir/semantic/ASTConverter.cpp:520-568 | In every order of labels, gotos and gosubs, each jump ends up at the first label of its name, or nowhere iff there is none; no name is both pending and defined |
| `BitwiseNotElimination.SyntaxTree.Gather` | odb-compiler/src/astpost/EliminateBitwiseNotRHS.cpp:22-34 | Collects the binary bitwise-nots in pre-order |
| `BitwiseNotElimination.NotsAreDistinct` | odb-compiler/src/astpost/EliminateBitwiseNotRHS.cpp:56-57 | Each of them once |
| `BitwiseNotElimination.SyntaxTree.FindSideEffects` | odb-compiler/src/astpost/EliminateBitwiseNotRHS.cpp:36-50 | Finds a node that is not known to be harmless iff there is one |
| `BitwiseNotElimination.SyntaxTree.SwapChild` | odb-compiler/src/ast/BinaryOp.cpp:57-67 | Replaces the child in place and sets its parent |
| `BitwiseNotElimination.SyntaxTree.Execute` | odb-compiler/src/astpost/EliminateBitwiseNotRHS.cpp:54-78 | True iff no right operand has side effects; then the tree is the rewritten one and no binary bitwise-not is left in it. Otherwise exactly the bitwise-nots before the first one with side effects, in pre-order, are rewritten. In either case parent pointers are right and whatever evaluated before gives the same value and effects |
| `BitwiseNotElimination.EditedTree` | odb-compiler/src/astpost/EliminateBitwiseNotRHS.cpp:59-75 | At every moment of the pass the tree is the original with the nodes processed so far rewritten |
| `BitwiseNotElimination.TreeIsWellShaped` | odb-compiler/src/ast/BinaryOp.cpp:57-67 | Binary nodes have both operands, wherever they are in the tree |
| `SyntaxTrees.RewriteEliminates` | odb-compiler/src/astpost/EliminateBitwiseNotRHS.cpp:72-74 | No binary bitwise-not is left, however deeply nested |
| `SyntaxTrees.RewriteIsIdentity` | odb-compiler/src/astpost/EliminateBitwiseNotRHS.cpp:54-78 | Nothing else is changed |
| `SyntaxTrees.RewritePreserves` | odb-compiler/src/astpost/EliminateBitwiseNotRHS.cpp:59-75 | What evaluated before evaluates to the same value with the same effects, loops and exits included |
| `SyntaxTrees.RewrittenPreserves` | odb-compiler/src/astpost/EliminateBitwiseNotRHS.cpp:54-78 | The same when the pass stops halfway: rewriting any bitwise-nots with harmless right operands changes no evaluation |
| `SyntaxTrees.PureKeepsState` | odb-compiler/src/astpost/EliminateBitwiseNotRHS.cpp:7-17 | Evaluating nodes without side effects leaves memory and calls alone |
| `SyntaxTrees.PureExactly` | odb-compiler/src/astpost/EliminateBitwiseNotRHS.cpp:7-17 | A tree counts as free of side effects iff no call, assignment, block, loop, exit or other unknown node occurs in it |
| `SyntaxTrees.HarmlessOperandsExactly` | odb-compiler/src/astpost/EliminateBitwiseNotRHS.cpp:59-70 | The pass accepts a tree iff no such node occurs in the right operand of any bitwise-not in it |
| `Graphs.HeightIsLongestPath` | odb-cli/argdefgen/src/action.c:618-640 | The height of an action is the length of the longest chain of dependencies below it |
| `CycleCheck.FindRoots` | odb-cli/argdefgen/src/action.c:737-782 | The roots are the actions that no other action depends on, in order |
| `CycleCheck.FindCycle` | odb-cli/argdefgen/src/action.c:560-584 | Finds a cycle iff one is reachable; the path never outgrows its array |
| `CycleCheck.VerifyDependenciesAreAcyclic` | odb-cli/argdefgen/src/action.c:585-616 | Passes iff no cycle is reachable from the roots of either graph |
| `CycleCheck.PassesExactly` | odb-cli/argdefgen/src/action.c:585-616 | The check from all roots passes iff every cycle is out of their reach; a graph is acyclic iff it passes and its roots cover it |
| `CycleCheck.CycleWithoutRoots` | odb-cli/argdefgen/src/action.c:585-616 | Two actions that depend on each other pass the check |
| `Priorities.AssignPriorities` | odb-cli/argdefgen/src/action.c:618-640 | Everything below the action gets its height, nothing else changes, although priorities are overwritten on the way |
| `Priorities.CalculatePriorities` | odb-cli/argdefgen/src/action.c:641-648 | From zeros, the roots give every action of an acyclic graph its height |
| `ImplicitRequirements.RequiresDependsOnImplicitAction` | odb-cli/argdefgen/src/action.c:650-667 | Finds an implicit action among the requirements, direct or not, iff there is one |
| `ImplicitRequirements.VerifyRequiresDontDependOnImplicitActions` | odb-cli/argdefgen/src/action.c:668-678 | Passes iff no action requires an implicit one |
| `Reduction.IsIndirectlyConnected` | odb-cli/argdefgen/src/action.c:680-694 | Tells reachability |
| `Reduction.IsMostDirectPath` | odb-cli/argdefgen/src/action.c:695-708 | Tells whether no other dependency leads to the same action |
| `Reduction.RemoveAt` | odb-cli/argdefgen/src/action.c:721-725 | Moves the rest of a list forward by one |
| `Reduction.RemoveIndirectDependencies` | odb-cli/argdefgen/src/action.c:709-735 | In place: the lists become the original ones without indirect dependencies, in order, and reachability stays |
| `Reduction.DetourIsIndirect` | odb-cli/argdefgen/src/action.c:695-729 | The test on the partly reduced graph has the outcome it has on the original |
| `Reduction.ReductionExactly` | odb-cli/argdefgen/src/action.c:709-735 | An edge is kept iff the original graph has no path of two or more edges beside it |
| `Reduction.ReductionKeepsHeight` | odb-cli/argdefgen/src/action.c:618-640 | Priorities are also the heights in the reduced graph |
| `ActionTable.HasDuplicates` | odb-cli/argdefgen/src/action.c:518-533 | Tells whether a list names an action twice |
| `ActionTable.ActionTable.Compile` | odb-cli/argdefgen/src/action.c:785-841 | All passes: succeeds iff lists are free of duplicates, graphs acyclic and nothing implicit is required; then priorities are heights of the original graph and both lists reduced; otherwise both are as before |
| `CommandLine.ActionList.AddImplicitRunafterDependencies` | odb-cli/argdefgen/templates/cpp_postamble.cpp:381-390 | Appends, once each, exactly the implicit actions reachable from the action that were missing, in the order of a depth-first visit |
| `CommandLine.ActionList.AddImplicitDependencies` | odb-cli/argdefgen/templates/cpp_postamble.cpp:391-401 | Keeps the given list in front; adds only implicit actions that follow from it, once each; and all of them; entry after entry in the order of a depth-first visit |
| `CommandLine.ClosedStays` | odb-cli/argdefgen/templates/cpp_postamble.cpp:391-401 | A second run adds nothing |
| `CommandLine.RunafterComesFirst` | odb-cli/argdefgen/templates/cpp_postamble.cpp:386-389 | What an action is to run after is added before what it may turn into, each with its own dependencies behind it |
| `CommandLine.ActionList.TryToHelp` | odb-cli/argdefgen/templates/cpp_postamble.cpp:404-437 | Adds the help action iff it exists, no meta action is listed and everything listed would run before it; then also what help depends on, and everything |
| `CommandLine.ActionList.RequirementsAreListed` | odb-cli/argdefgen/templates/cpp_postamble.cpp:453-474 | Accepts iff the list is closed under the requirements in the table |
| `CommandLine.ReducedRequirementsSuffice` | odb-cli/argdefgen/templates/cpp_postamble.cpp:453-474 | Closed under the reduced requirements iff closed under those the author wrote, iff closed under all that follows from them |
| `Scheduler.OrderExactly` | odb-cli/argdefgen/templates/cpp_postamble.cpp:37-40 | Every run, with ties in any order, respects the priorities iff no meta action may turn into one of higher priority |
| `Scheduler.NeverAfter` | odb-cli/argdefgen/templates/cpp_postamble.cpp:479-541 | An action never runs after one that must run after it |
| `Scheduler.RunsAreBounded` | odb-cli/argdefgen/templates/cpp_postamble.cpp:486-541 | No run is longer than the weight of its queue, if metadeps are acyclic |
| `Scheduler.RunsConserve` | odb-cli/argdefgen/templates/cpp_postamble.cpp:479-541 | What was run and what is left are what was queued and what meta actions turned into |
| `Scheduler.DependenciesRunFirst` | odb-cli/argdefgen/templates/cpp_postamble.cpp:479-541 | Before an action runs, every implicit action it must run after, by any chain the author wrote, has run |
| `Scheduler.IsMetadep` | odb-cli/argdefgen/templates/cpp_postamble.cpp:499-513 | Tells whether the result of a meta action is among its metadeps |
| `Scheduler.RunMeta` | odb-cli/argdefgen/templates/cpp_postamble.cpp:493-533 | Replaces a meta action iff its answer is permitted |
| `Scheduler.ProcessActions` | odb-cli/argdefgen/templates/cpp_postamble.cpp:479-541 | Runs the whole list, each standard action with the answer true and each meta action turning into what it answered, or stops at the first action that refuses; what was run and what is left are the list and what meta actions turned into |
| `Scheduler.ParseCommandLine` | odb-cli/argdefgen/templates/cpp_postamble.cpp:440-542 | The whole program: requirements as the author wrote them; the list is what was asked for with its implicit dependencies, then help, if it is needed, with its own; everything on it is run, none of it refused, implicit dependencies before, and no action after one that must run after it; it fails only if requirements are missing, and then runs nothing, or at the first action that refuses |
| `Scheduler.NothingAskedFor` | odb-cli/argdefgen/templates/cpp_postamble.cpp:404-437 | With nothing asked for, the list is help and what it depends on, or empty iff there is no help action |
| `TieOrder.ListOrderExactly` | odb-cli/argdefgen/templates/cpp_postamble.cpp:479-485 | As long as no meta action turns into another, entries of equal priority always run in the order of the list iff no two different ones share a priority |
| `TieOrder.OneOrderExactly` | odb-cli/argdefgen/templates/cpp_postamble.cpp:479-485 | With any answers of meta actions, a queue can be run in only one way iff no queue that comes up has two different entries of the least priority |
| `TieOrder.StandardOnly` | odb-cli/argdefgen/templates/cpp_postamble.cpp:479-485 | In no run of standard actions does an action turn into another |
| `TieOrder.EitherOrder` | odb-cli/argdefgen/templates/cpp_postamble.cpp:37-40 | Two actions of equal priority may run in either order |
| `CommandMatching.CommandMatcher.UpdateFromIndex` | odb-compiler/src/commands/CommandMatcher.cpp:26-58 | The table is the names in lower case, sorted; it has no upper-case letters and the same words as the names but for the case of letters; longest command and most words are those of the table |
| `CommandMatching.MeasuresExactly` | odb-compiler/src/commands/CommandMatcher.cpp:38-57 | The two measures are the length of a longest command, and one more than the number of spaces in a command with most of them |
| `CommandMatching.CommandMatcher.LowerBound` | odb-compiler/src/commands/CommandMatcher.cpp:73-73 | First entry of the range not below the character |
| `CommandMatching.CommandMatcher.UpperBound` | odb-compiler/src/commands/CommandMatcher.cpp:74-74 | First entry of the range above the character |
| `CommandMatching.CommandMatcher.FindLongestCommandMatching` | odb-compiler/src/commands/CommandMatcher.cpp:61-92 | The narrowing search with its stack gives what the linear scan gives |
| `CommandMatching.Strncicmp` | odb-sdk/src/Str.cpp:42-52 | Zero iff the first n characters agree ignoring case |
| `CommandMatching.MatchMeaning` | odb-compiler/src/commands/CommandMatcher.cpp:61-92 | A match is the length of a command that starts the text and no shorter than any that also ends where a word ends; otherwise the longest common prefix |
| `CommandMatching.WholeExactly` | odb-compiler/src/commands/CommandMatcher.cpp:61-92 | The whole text is matched iff it is a command and not empty |
| `CommandMatching.CaseIsIgnored` | odb-compiler/src/commands/CommandMatcher.cpp:71-74 | Texts that differ only in letters A to Z against those 32 above give the same result |
| `CommandMatching.WholeInAnyCase` | odb-sdk/src/Str.cpp:42-52 | A nonempty text is found whole iff it is a command but for the case of letters |
| `CommandMatching.MatchMeaningByLetters` | odb-compiler/src/commands/CommandMatcher.cpp:61-92 | In characters: a hit is the length of a command that starts the text but for case, and no shorter than any other behind which no digit, letter or underscore follows |
| `CommandMatching.HitInsideWord` | odb-compiler/src/commands/CommandMatcher.cpp:83-89 | A hit may end inside a word |
| `CommandMatching.AtWordEndExactly` | odb-compiler/src/commands/CommandMatcher.cpp:83-89 | Every hit on every text ends where a word ends iff each end of a word inside a command is covered by an earlier command that starts in the same way |
| `TokenMerging.MergeCovers` | odb-compiler/src/parsers/db/Driver.cpp:152-174 | What is pushed covers the input in order: nothing lost, duplicated or reordered; merged tokens are commands |
| `TokenMerging.MergedExactly` | odb-compiler/src/parsers/db/Driver.cpp:109-147 | A run is merged iff it is the longest one that is a command and no type annotation follows it |
| `TokenMerging.RunExactly` | odb-compiler/src/parsers/db/Driver.cpp:109-147 | Tokens are a run iff another token follows them, the scanner made sense of all but the first, and their text is a command but for the case of letters |
| `TokenMerging.MergeKinds` | odb-compiler/src/parsers/db/Driver.cpp:176-268 | Every token pushed is a keyword iff a symbol or a merged run is behind it, its text is that keyword and the next scanned token is no annotation; otherwise a run is a command and a single token what it was scanned as |
| `TokenMerging.KeywordIsPushed` | odb-compiler/src/parsers/db/Driver.cpp:216-236 | `for` in front of a symbol is pushed as its keyword |
| `TokenMerging.SpaceBehindFirst` | odb-compiler/src/parsers/db/Driver.cpp:134-144 | A space follows the first token of a run even if it is an integer |
| `TokenMerging.LeadingIntegerIsNotMerged` | odb-compiler/src/parsers/db/Driver.cpp:134-144 | A command that goes on directly behind its leading integer is not recognised |
| `TokenMerging.DescribedExactly` | odb-compiler/src/parsers/db/Driver.cpp:134-144 | The text looked up is the one the comment describes iff the run does not begin with an integer or a type annotation follows it |
| `ParserDriver.Driver.ScanNextToken` | odb-compiler/src/parsers/db/Driver.cpp:82-86 | Scans one token, never past the end of the input |
| `ParserDriver.Driver.FindRun` | odb-compiler/src/parsers/db/Driver.cpp:89-147 | The look-ahead finds the run of the specification; every queued token has its text afterwards |
| `ParserDriver.Driver.MergeTokens` | odb-compiler/src/parsers/db/Driver.cpp:149-165 | Frees the strings of the run and replaces it by one command |
| `ParserDriver.Driver.ConvertToKeyword` | odb-compiler/src/parsers/db/Driver.cpp:216-268 | Symbols and commands named like keywords become keywords unless a type annotation follows; their string is freed |
| `ParserDriver.Driver.DoParse` | odb-compiler/src/parsers/db/Driver.cpp:176-277 | Pushes a beginning of the merged input, up to where the parser stops; every string allocated is freed or handed over exactly once, and as many are handed over as symbols, string literals and commands are pushed |
| `RefCounting.Heap.NewObject` | odb-sdk/src/RefCounted.cpp:31-36 | A new object has a cell with count zero and the weak reference to itself, and fields that hold nothing; nothing else changes |
| `RefCounting.Heap.AddRef` | odb-sdk/include/odb-sdk/Reference.hpp:209-214 | One more handle, one more count |
| `RefCounting.Heap.ReleaseRef` | odb-sdk/src/RefCounted.cpp:62-68 | Deletes the object iff this was the last handle; afterwards all counts equal the numbers of handles, and every object was deleted after all its owners |
| `RefCounting.Heap.Delete` | odb-sdk/src/RefCounted.cpp:39-52 | Fields release their objects, then the cell is marked as expired and freed if nobody watches |
| `RefCounting.Heap.Reset` | odb-sdk/include/odb-sdk/Reference.hpp:216-223 | Safe iff the handle is no field or its object is still sustained without it; then the handle is cleared and exactly the objects sustained without it survive, with their fields |
| `RefCounting.Heap.DropHandle` | odb-sdk/include/odb-sdk/Reference.hpp:70-73 | Removes a handle that goes out of scope; weak handles and objects never owned stay, and exactly the objects still sustained |
| `RefCounting.Heap.NewHandle` | odb-sdk/include/odb-sdk/Reference.hpp:42-67 | A handle on an existing object, or null; nothing else changes |
| `RefCounting.Heap.Assign` | odb-sdk/include/odb-sdk/Reference.hpp:103-113 | Safe iff the object the handle is part of and the new target are still sustained when the handle is cleared; exactly the sustained objects then survive, and weak handles stay |
| `RefCounting.Heap.AssignFrom` | odb-sdk/include/odb-sdk/Reference.hpp:76-87 | Safe iff the objects of which the handles are part are still sustained when the handle assigned is cleared; exactly the sustained objects then survive, and weak handles stay |
| `RefCounting.NextIsLost` | odb-sdk/include/odb-sdk/Reference.hpp:76-87 | Assigning to a variable the field of the object it alone holds is not safe |
| `RefCounting.Heap.DetachFrom` | odb-sdk/include/odb-sdk/Reference.hpp:155-164 | Clears the handle without deleting the object, which floats if this was the last one; nothing else changes |
| `RefCounting.Heap.NewWeak` | odb-sdk/include/odb-sdk/Reference.hpp:285-297 | A weak handle on an existing object |
| `RefCounting.Heap.CopyWeak` | odb-sdk/include/odb-sdk/Reference.hpp:268-273 | A copy watches the same object, even an expired one |
| `RefCounting.Heap.ResetWeak` | odb-sdk/include/odb-sdk/Reference.hpp:492-505 | The last watcher of an expired object frees its cell |
| `RefCounting.Heap.Lock` | odb-sdk/include/odb-sdk/Reference.hpp:366-372 | A strong handle to the object watched, or null iff it has expired; nothing else changes |
| `RefCounting.Expired` | odb-sdk/src/RefCounted.cpp:39-52 | The end of a deletion keeps counts, handles and cells consistent; each object is deleted and each cell freed once |
| `RefCounting.NothingLeaksExactly` | odb-sdk/src/RefCounted.cpp:62-68 | Every existing object is held by a variable or floating iff every cycle of owners is |
| `RefCounting.AliveExactly` | odb-sdk/src/RefCounted.cpp:62-68 | An object exists iff it is held, directly or through owners, by a variable or by one never owned or detached, or owned by a cycle of owners; without cycles iff it is held |
| `RefCounting.ReleaseSurvivors` | odb-sdk/include/odb-sdk/Reference.hpp:216-223 | A release deletes exactly the objects that are neither held nor owned by a cycle once the handle is cleared |
| `RefCounting.CyclesStay` | odb-sdk/src/RefCounted.cpp:62-68 | No object on a cycle of owners is deleted, as owners are deleted first |
| `RefCounting.WithoutCycles` | odb-sdk/include/odb-sdk/Reference.hpp:216-223 | In a heap without cycles sustained means held, and every reset is safe |
| `RefCounting.SelfOwned` | odb-sdk/include/odb-sdk/Reference.hpp:216-223 | A valid state in which the reset of a field is not safe: its object is held by this field only |

## Left out

- The simulation is about one function at a time: a call, also of a user function, is an event whose
  result the outside world decides; return values of user functions are not followed.
- Floating point, strings, matrices, UDTs, `select`, and code for `while` and `until` (the generator
  has none): expressions and statements of these kinds are outside the fragment.
- Integer casts extend the sign for unsigned types as well, as the generator does; there is no
  unsigned arithmetic in the model because the generator emits none.
- The evaluation order that C++ leaves open (the load and the step expression of a for loop's
  increment, the condition and the branches of a conditional during conversion) is fixed to left to right.
- `puts` calls around gotos and gosubs, and the module-level entry point.
- A goto that was never given a label is a null pointer that the generator dereferences: in the model it keeps the
  number of its own node, which is no label.
- Compilation.CompileProgram: gives no code for functions outside the fragment, which the original may have code for;
  arguments of functions are not among the variables, as in the original.
- WellFormed.WellFormedExactly: of LLVM's rules those on blocks, targets, returns and types; that registers are defined
  before use shows in the code never going wrong for a program that does not.
- Each command has a thunk of its own type; in the original, commands that share a C++ symbol share the thunk of the
  one that is called first.
- Log output, source locations and the text of error messages; where the converter stops the
  process, the model returns None.
- CodeGeneration.CodeGenerator.GenerateBlock: the state after giving up is not described, because the caller discards the module.
- AstConversion.AstConverter.GenerateProgram: functions are converted in the given order and have distinct names; the original visits them in hash order and converts only the first of a name. Which errors of a faulty program are recorded, and in which order, is not described.
- The converter's `front()` on an empty list of overloads is undefined; the model stops there.
- ActionTable.ActionTable.Compile: excludes tables with a cycle that the check passes, because the passes behind it need not terminate on them.
- The node lists, name lookup and text output of the action generator; parsing of options and printing of help
  in the generated program. Handlers are functions of the number of actions run so far.
- Scheduler.ParseCommandLine: requires each meta action to have metadeps, because the original dereferences a null pointer otherwise, and runafter with metadeps to be acyclic, which no pass checks.
- The deplists are sequences held in arrays, not arrays of `int` with a terminator.
- Token numbers: which tokens are type annotations is a parameter (the original applies a test on characters to the token number).
- The lexer and parser themselves: a stream of lexemes, and a consumer that may stop anywhere and stops at the end.
- Characters outside ASCII and NUL in commands and input; the sort of the command table is an insertion.
- Weak handles inside objects, casts between handle types, and user code in destructors.
- A handle is cleared before the object it held is released; in the original the pointer is reset afterwards. Only a
  destructor of the object that the handle is part of could observe that. For a field released by that destructor it
  is already running; for `reset` and assignments such a destructor makes them unsafe (`RefCounting.Heap.Reset`), and
  the state afterwards is not described.
- BitwiseNotElimination.SyntaxTree.Execute: nodes whose swapChild does not set the parent (leaves and UDT declarations) are not modelled, because none of them can hold a bitwise-not except UDT bodies.
- SyntaxTrees.RewritePreserves: jumps, function declarations and data statements have no semantics of their own there (they are `Other` nodes evaluated once); expressions, calls, assignments, blocks, conditionals, loops and exits have. The symbol behind `next` is not a child.
- The code generator has no code for the unary bitwise-not that the pass produces.
- `CommandIndex::findConflicts`, `EnforceSingleDefaultCase`, command loaders and string helpers: easy.
