# eslint-plugin-predictable, modelled in Dafny

This project models the rules of the ESLint plugin `eslint-plugin-predictable`
and the helpers they share, and proves properties of the model:

- `max-conditional-depth` (`max_conditional_depth.dfy`). The rule keeps one
  frame per open function-like scope (program, function, arrow function,
  static block). A frame lists the conditionals currently open in that scope:
  `if`, `switch`, `catch`, the loops, `with` and `?:`. When a push makes the
  innermost frame longer than `maxDepth`, the rule reports `tooDeeply`. A
  `catch` clause that rethrows its own binding is exempt. The handlers are
  pure step functions over the frame stack. The class `DepthTracker` holds the
  rule's closure state, and each of its methods is proved against the
  matching step function.
- `no-unconditional-function-calls` (`no_unconditional_function_calls.dfy`).
  For every argument of a call, `checkNode` searches array elements, object
  property values, template interpolations and binary or logical operands for
  the first conditional: a ternary, or a `??`, `||` or `&&` expression. Each
  argument where it finds one is reported.
- `ast-utils` (`ast_utils.dfy`). Provides `isFunction`, `isLoop`,
  `isLogicalAssignmentOperator`, and `isInLoop`, which walks the parent chain
  and stops at the first function.
- `if-for-flow-control` (`if_for_flow_control.dfy`). When the traversal
  leaves an `if`, each branch whose last statement is not `return`, `throw`,
  `continue` or `break` is reported.
- `complex-objects` (`complex_objects.dfy`). Reports an object property whose
  value text has more than five lines after `trim()` and
  `split(/\r\n|\r|\n/g)`. Its fix hoists the value into a `const` before the
  enclosing top-level statement and uses the key name in its place.

The shared syntax tree is `estree.dfy`. Nodes are values. Parent links are
passed explicitly, as a parent `Option<Node>` or as a list of ancestors,
nearest first. A JavaScript call that would throw a `TypeError` yields the
`TypeError` case of `Result`.

The model follows the code where it differs from the rule descriptions and
tests:

- **Nested `if`s.** An `if` whose parent is any `IfStatement` is not pushed.
  This covers an `else if`, and also an `if` that is the brace-less
  consequent of another `if`. Its exit still pops, which pops a construct
  that was pushed for something else (`IfUnderIfPopsTwice`).
- **`{maximum: 0}`.** `option.maximum || option.max` is `undefined` when the
  object has no `max`. No length is greater than `undefined`, so the rule then
  reports nothing (`MaxDepthOf`, `UndefinedMaxNeverReports`).
- **Brace-less `if` in a `catch`.** When a catch block is a single `if`
  whose consequent has no `body` property, as in `if (c) throw e;`, the
  rethrow guard reads `.length` of that missing `body` and throws
  (`GuardThrowsIff`). A consequent whose `body` is a single node, such as a
  `while`, does not throw: its `body` has no `length`, so no last statement is
  found and the catch is not a guard (`BodyList`).
- **Identifiers.** The comment at the top of the rule says identifiers are
  followed to their definition. In the code, the `Identifier` case calls
  `findWithPredicate(variable)` without a predicate. A node has no `length`,
  so the result is always `undefined` and an identifier never yields a
  report (`OpaqueToTaint`, `TernaryVariableNotReported`).
- **Message text.** The `complex-objects` tests expect the message "Object
  keys should not be longer than 5 lines.". The code reports "Object value
  should not be longer than 5 lines.", and the model uses the code's text.
- **Key names.** The fix of `complex-objects` stringifies
  `property.key.name`. A key that is not an identifier, such as a string,
  a number or a computed key that is not a plain identifier, has no `name`,
  and the text becomes `undefined` (`KeyName`).
  When no ancestor is a `Program` or a `BlockStatement`, the walk of the fix
  throws (`TopStatement`). ESLint runs the fixer inside `context.report`, so
  that exception ends the whole `ObjectExpression` handler
  (`ObjectOutcome`, `OnObjectExpression`).

## Model

| member | source | states |
|---|---|---|
| MaxConditionalDepth.MaxDepthOf | lib/max-conditional-depth.js:60-72 | `maxDepth` is 4 without an option or with an empty object. A number is used as given. With an object, `maximum` wins unless it is 0, and then `max` is used. It is undefined exactly for `{maximum: 0}` without `max`. |
| MaxConditionalDepth.MaxDepthOptionExamples | lib/max-conditional-depth.test.js:116-191 | The option forms of the tests, `[2]`, `[{max: 2}]` and `[{maximum: 2}]`, give 2. No option gives 4. `{maximum: 0}` gives undefined. |
| MaxConditionalDepth.ParamName | lib/max-conditional-depth.js:2 | `node.param?.name` is truthy iff the binding is an identifier with a non-empty name, and then it is that name. |
| MaxConditionalDepth.BodyList | lib/max-conditional-depth.js:4-6 | A program, block or static block gives its statements. A catch clause, a loop, `with`, a labelled statement, a function or a class, whose `body` is a single node, gives an empty list. Every other statement an `if` consequent can be (an expression statement, `throw`, `return`, another `if`, …) has no `body` and throws. |
| MaxConditionalDepth.EffectiveBody | lib/max-conditional-depth.js:4 | A catch block that is not a single `if` is read as it is. A single `if` is read through its consequent: a braced block gives its statements, a consequent whose `body` is a single node (a loop, `with`, a labelled statement) gives an empty list, and a consequent without `body` throws. |
| MaxConditionalDepth.IsConditionalRethrow | lib/max-conditional-depth.js:1-13 | Anything that is not a catch clause, and any catch without a named binding, is not a guard. The guard throws only when the catch block is a single `if`. |
| MaxConditionalDepth.GuardIff | lib/max-conditional-depth.js:4-12 | A catch clause binding `x` is a guard iff its effective body is non-empty and ends with exactly `throw x`. |
| MaxConditionalDepth.GuardThrowsIff | lib/max-conditional-depth.js:2-6 | The guard throws iff the catch has a named binding and its block is a single `if` whose consequent has no `body` property at all. |
| MaxConditionalDepth.GuardExamples | lib/max-conditional-depth.test.js:42-55 | The tests' `if (…) {…} throw error;` is a guard. So are a plain rethrow and `if (…) { throw e }`. A throw of another value is not a guard, and neither is a catch without a binding nor an empty `if`. A brace-less `if (c) throw e;` throws. |
| MaxConditionalDepth.OpenFrame | lib/max-conditional-depth.js:79-81 | `startFunction` keeps every existing frame and adds one empty frame after them, so the depth there is 0. |
| MaxConditionalDepth.CloseFrame | lib/max-conditional-depth.js:88-90 | `endFunction` removes the last frame. It leaves an empty stack empty. |
| MaxConditionalDepth.PushBlockStep | lib/max-conditional-depth.js:98-106 | `pushBlock` throws iff the guard throws, or the node is not a guard and there is no frame. A guard leaves the state as it is. Otherwise the frame count is kept, and there is at most one report, about the node, with a depth past `maxDepth`. |
| MaxConditionalDepth.PopBlockStep | lib/max-conditional-depth.js:114-118 | `popBlock` throws in the same cases as `pushBlock`. A guard leaves the stack as it is. Otherwise the outer frames are kept and the innermost frame loses its last entry; an empty innermost frame stays empty. |
| MaxConditionalDepth.EnterStep | lib/max-conditional-depth.js:124-144 | Function-like nodes open a frame. An `if` reads its parent's type, so a missing parent throws. An `if` under an `if` changes nothing. Any other `if`, and each other conditional, is `pushBlock`. Other nodes change nothing. Every report is about the entered node and past the limit. |
| MaxConditionalDepth.ExitStep | lib/max-conditional-depth.js:146-161 | Leaving a function-like node is `endFunction`. Leaving an `if` or another conditional is `popBlock`. Leaving any other node changes nothing. |
| MaxConditionalDepth.Step | lib/max-conditional-depth.js:124-162 | An enter event runs the enter handler, an exit event the exit handler, which never reports. Every report comes from an enter event, is about its node and is past the limit. |
| MaxConditionalDepth.Run | lib/max-conditional-depth.js:124-162 | No events change nothing. Every report of a run is past the limit and is about a node that some enter event of the run entered. |
| MaxConditionalDepth.GuardIsExempt | lib/max-conditional-depth.js:98-118 | A guard is neither pushed nor popped, and it reports nothing. |
| MaxConditionalDepth.PushReportsIffTooDeep | lib/max-conditional-depth.js:98-106 | Pushing appends the node to the innermost frame and raises the depth by one. It reports iff the new depth exceeds `maxDepth`, with that depth in the data. |
| MaxConditionalDepth.DepthIsInnermostFrame | lib/max-conditional-depth.js:101-104 | Whether a push reports depends only on the innermost frame. The frames of enclosing functions do not count. |
| MaxConditionalDepth.FunctionScopeIsFresh | lib/max-conditional-depth.js:125-129 | Entering a function-like node opens an empty frame. Leaving it drops its frame, whatever that frame holds. |
| MaxConditionalDepth.EnterExitRestores | lib/max-conditional-depth.js:131-155 | Entering and leaving a pushed conditional restores the stack, even after a report. |
| MaxConditionalDepth.IfUnderIfPopsTwice | lib/max-conditional-depth.js:131-146 | An `if` under an `if` is not pushed, but its exit pops. Leaving both pops twice. |
| MaxConditionalDepth.UndefinedMaxNeverReports | lib/max-conditional-depth.js:64-106 | With `maxDepth` undefined, no sequence of events reports anything. |
| MaxConditionalDepth.RunCons | lib/max-conditional-depth.js:124-162 | A run is its first handler followed by the rest. The findings are concatenated in order. |
| MaxConditionalDepth.PushedEntryStep | lib/max-conditional-depth.js:131-144 | Entering a pushed conditional appends it to the innermost frame, and reports iff the frame grows past `maxDepth`. |
| MaxConditionalDepth.NestedEntries | lib/max-conditional-depth.js:98-106 | Entering nested conditionals stacks them all on the innermost frame. Each one is reported once it is past the limit, at its own depth. |
| MaxConditionalDepth.ChainWithinLimit | lib/max-conditional-depth.js:104 | A chain that stays within `maxDepth` reports nothing. |
| MaxConditionalDepth.ChainOnePastLimit | lib/max-conditional-depth.js:104-105 | A chain that reaches `maxDepth + 1` reports once, at the innermost node, with depth `maxDepth + 1`. |
| MaxConditionalDepth.FunctionEntryStep | lib/max-conditional-depth.js:125-129 | Entering a function-like node opens an empty frame and reports nothing. |
| MaxConditionalDepth.FunctionThenNested | lib/max-conditional-depth.js:125-144 | Inside a function, nested conditionals fill that function's fresh frame, whatever encloses the function. |
| MaxConditionalDepth.NestingBoundary | lib/max-conditional-depth.test.js:11-101 | Inside a function, `maxDepth` nested conditionals report nothing. `maxDepth + 1` report exactly once, at the innermost, with depth `maxDepth + 1`. |
| MaxConditionalDepth.DepthTracker.constructor | lib/max-conditional-depth.js:60-72 | The state starts with no frames and no findings, and `maxDepth` is computed from the option. |
| MaxConditionalDepth.DepthTracker.StartFunction | lib/max-conditional-depth.js:79-81 | Pushes an empty frame. The findings are unchanged. |
| MaxConditionalDepth.DepthTracker.EndFunction | lib/max-conditional-depth.js:88-90 | Pops the last frame. The findings are unchanged. |
| MaxConditionalDepth.DepthTracker.PushBlock | lib/max-conditional-depth.js:98-106 | The new stack and findings are those of `PushBlockStep`. Where that step throws, the state is unchanged. |
| MaxConditionalDepth.DepthTracker.PopBlock | lib/max-conditional-depth.js:114-118 | The new stack is that of `PopBlockStep`. Where that step throws, the state is unchanged. The findings are unchanged. |
| MaxConditionalDepth.DepthTracker.Enter | lib/max-conditional-depth.js:124-144 | The enter handler of the node's type, as `EnterStep` states it. |
| MaxConditionalDepth.DepthTracker.Exit | lib/max-conditional-depth.js:146-161 | The exit handler of the node's type, as `ExitStep` states it. |
| NoUnconditionalFunctionCalls.FirstSome | lib/no-unconditional-function-calls.js:4-12 | The search finds nothing iff every predicate result is falsy. Otherwise it returns the result at the first truthy position. |
| NoUnconditionalFunctionCalls.FindWithPredicate | lib/no-unconditional-function-calls.js:4-12 | The indexed loop returns the first truthy result, taken at its first hit. |
| NoUnconditionalFunctionCalls.IsConditionalExpression | lib/no-unconditional-function-calls.js:27-30 | Every ternary qualifies, and only ternaries and logical expressions can; a logical expression qualifies by its operator being `??`, `||` or `&&`. |
| NoUnconditionalFunctionCalls.CheckNode | lib/no-unconditional-function-calls.js:32-59 | Identifiers, calls, literals and spreads yield nothing. |
| NoUnconditionalFunctionCalls.CheckNodeIsConditional | lib/no-unconditional-function-calls.js:32-59 | Whatever `checkNode` returns is a ternary or a `??`, `||`, `&&` expression. |
| NoUnconditionalFunctionCalls.ExposedIsConditional | lib/no-unconditional-function-calls.js:27-37 | Every node `checkNode` may reach and return is a ternary or a `??`, `||`, `&&` expression. |
| NoUnconditionalFunctionCalls.CheckNodeSound | lib/no-unconditional-function-calls.js:32-59 | When `checkNode` returns a node, the argument exposes that node. |
| NoUnconditionalFunctionCalls.CheckNodeComplete | lib/no-unconditional-function-calls.js:32-59 | When the argument exposes some conditional, `checkNode` returns a node. |
| NoUnconditionalFunctionCalls.FirstHitOf | lib/no-unconditional-function-calls.js:4-12 | A successful search has a first hit, and the result is the predicate's value there. |
| NoUnconditionalFunctionCalls.CheckNodeIff | lib/no-unconditional-function-calls.js:32-59 | `checkNode` is truthy iff the node exposes a conditional. The node it returns is exposed and is conditional. |
| NoUnconditionalFunctionCalls.ArrayYieldsNothingIffClean | lib/no-unconditional-function-calls.js:33-40 | An array yields nothing iff no element offends. Holes are skipped. |
| NoUnconditionalFunctionCalls.ArrayYieldsFirstOffending | lib/no-unconditional-function-calls.js:39-40 | An array yields the result of its first offending element. |
| NoUnconditionalFunctionCalls.ObjectYieldsNothingIffClean | lib/no-unconditional-function-calls.js:41-42 | An object yields nothing iff no property value offends. Spread entries count as nothing. |
| NoUnconditionalFunctionCalls.ObjectYieldsFirstOffending | lib/no-unconditional-function-calls.js:41-42 | An object yields the result of its first property whose value offends. |
| NoUnconditionalFunctionCalls.TemplateYieldsNothingIffClean | lib/no-unconditional-function-calls.js:51-52 | A template literal yields nothing iff no interpolation offends. |
| NoUnconditionalFunctionCalls.TemplateYieldsFirstOffending | lib/no-unconditional-function-calls.js:51-52 | A template literal yields its first offending interpolation. |
| NoUnconditionalFunctionCalls.BinaryChecksLeftFirst | lib/no-unconditional-function-calls.js:48-50 | A binary operand is checked left first. The right operand is checked only when the left yields nothing. |
| NoUnconditionalFunctionCalls.ConditionalIsItsOwnOffender | lib/no-unconditional-function-calls.js:27-36 | A ternary, or a `??`, `||`, `&&` expression, is returned as itself. |
| NoUnconditionalFunctionCalls.OpaqueToTaint | lib/no-unconditional-function-calls.js:43-57 | Identifiers, calls, literals and spreads never yield anything and expose nothing. |
| NoUnconditionalFunctionCalls.CallReports | lib/no-unconditional-function-calls.js:79-90 | There is at most one report per argument, and every reported node is a conditional. |
| NoUnconditionalFunctionCalls.CallReportsAppend | lib/no-unconditional-function-calls.js:80-89 | The reports of two argument lists are the reports of each, in argument order. |
| NoUnconditionalFunctionCalls.SingleArgumentReport | lib/no-unconditional-function-calls.js:81-88 | A single argument is reported iff it exposes a conditional. The report is at the node `checkNode` returns. |
| NoUnconditionalFunctionCalls.NoReportsIffClean | lib/no-unconditional-function-calls.js:79-90 | A call reports nothing iff `checkNode` yields nothing for every argument. |
| NoUnconditionalFunctionCalls.OnCallExpression | lib/no-unconditional-function-calls.js:79-90 | The handler's loop reports exactly `CallReports` of the arguments. Every report is a conditional other than the call itself. |
| NoUnconditionalFunctionCalls.TernaryVariableNotReported | lib/no-unconditional-function-calls.test.js:25-31 | `doSomething(value)` reports nothing, even when `value` is a ternary. |
| NoUnconditionalFunctionCalls.LiteralNotReported | lib/no-unconditional-function-calls.test.js:10-23 | A string or number literal argument reports nothing. |
| NoUnconditionalFunctionCalls.PlainObjectNotReported | lib/no-unconditional-function-calls.test.js:40-46 | `{ prop: 'value' }` reports nothing. |
| NoUnconditionalFunctionCalls.PlainArrayNotReported | lib/no-unconditional-function-calls.test.js:47-53 | `[1, 2, 3]` reports nothing. |
| NoUnconditionalFunctionCalls.TemplateAndNestedCallNotReported | lib/no-unconditional-function-calls.test.js:62-75 | A plain template literal reports nothing, and so does a nested call. |
| NoUnconditionalFunctionCalls.TernaryInObjectReported | lib/no-unconditional-function-calls.test.js:130-142 | A ternary property value is reported. |
| NoUnconditionalFunctionCalls.TernaryInArrayReported | lib/no-unconditional-function-calls.test.js:143-155 | A ternary array element is reported. |
| NoUnconditionalFunctionCalls.TernaryInTemplateReported | lib/no-unconditional-function-calls.test.js:156-168 | A ternary interpolation is reported. |
| AstUtils.FunctionPatternIsExact | lib/ast-utils.js:2 | The function pattern accepts exactly `FunctionDeclaration`, `FunctionExpression` and `ArrowFunctionExpression`. |
| AstUtils.LoopPatternIsExact | lib/ast-utils.js:3 | The loop pattern accepts exactly the five loop statement types. |
| AstUtils.LoopPatternSound | lib/ast-utils.js:3 | Every type the loop pattern accepts is a loop type. |
| AstUtils.LoopPatternComplete | lib/ast-utils.js:3 | The loop pattern accepts every loop type. |
| AstUtils.IsFunction | lib/ast-utils.js:15-17 | Only a present node can be a function, and a function is never a loop. |
| AstUtils.IsLoop | lib/ast-utils.js:36-38 | Only a present node can be a loop, and every loop is a node kind without a constructor of its own here. |
| AstUtils.IsFunctionIsPatternTest | lib/ast-utils.js:15-17 | `isFunction` is the function-pattern test on the node's type. `null` fails it. |
| AstUtils.IsLoopIsPatternTest | lib/ast-utils.js:36-38 | `isLoop` is the loop-pattern test on the node's type. `null` fails it. |
| AstUtils.IsLogicalAssignmentOperator | lib/ast-utils.js:19-21 | True iff the operator is one of the three short-circuit operators (and, or, nullish coalescing) followed by `=`. |
| AstUtils.InLoop | lib/ast-utils.js:45-53 | A chain that is in a loop is non-empty and does not start with a function. |
| AstUtils.InLoopIff | lib/ast-utils.js:45-53 | The walk answers true iff some loop on the chain has no function before it. |
| AstUtils.IsInLoop | lib/ast-utils.js:45-53 | The loop answers true iff a loop comes before the first function on the chain. A function node is never in a loop. |
| AstUtils.ModelledIsNeitherFunctionNorLoop | lib/ast-utils.js:2-3 | Blocks, `if`s, identifiers and the other nodes with their own constructor are neither functions nor loops. |
| AstUtils.IsFunctionExamples | lib/ast-utils.test.js:5-29 | The three function types pass. `VariableDeclaration` and `null` fail. |
| AstUtils.LogicalAssignmentExamples | lib/ast-utils.test.js:31-44 | The three logical assignment operators pass. `=`, `+=`, `-=` and `*=` fail. |
| AstUtils.InLoopUnderFor | lib/ast-utils.test.js:47-55 | An identifier under a `for` is in a loop. |
| AstUtils.InLoopUnderIfUnderWhile | lib/ast-utils.test.js:57-71 | An identifier under a block, under an `if`, under a `while` is in a loop. |
| AstUtils.NotInLoopWithoutLoop | lib/ast-utils.test.js:73-84 | A chain without a loop is not in a loop. |
| AstUtils.NotInLoopAcrossFunction | lib/ast-utils.test.js:86-102 | A function between the node and a loop stops the walk. |
| IfForFlowControl.Statements | lib/if-for-flow-control.js:4 | A block's statements are its body. A brace-less statement stands alone. |
| IfForFlowControl.MissingControlFlow | lib/if-for-flow-control.js:3-10 | A `throw` branch, and a block ending in `throw`, never miss flow control. A block that misses flow control is not empty. |
| IfForFlowControl.OnIfExit | lib/if-for-flow-control.js:28-42 | The first report is for the consequent iff it misses flow control. The last is for the alternate iff there is one and it misses flow control. There is nothing else, and every report has `notFlowControl`. |
| IfForFlowControl.MissingIffLastNotFlowControl | lib/if-for-flow-control.js:1-10 | A branch misses flow control iff it has a last statement that is not `return`, `throw`, `continue` or `break`. |
| IfForFlowControl.EmptyBlockNotMissing | lib/if-for-flow-control.js:5-7 | An empty block is never reported. |
| IfForFlowControl.OnlyLastStatementCounts | lib/if-for-flow-control.js:5-9 | Only the last statement of a block decides. |
| IfForFlowControl.BracelessIsOneStatementBlock | lib/if-for-flow-control.js:4 | A brace-less branch is judged as a one-statement block. |
| IfForFlowControl.NestedBlockIsMissing | lib/if-for-flow-control.js:5-9 | A block ending in a nested block is reported, whatever the inner block ends with. |
| IfForFlowControl.ElseIfIsMissing | lib/if-for-flow-control.js:4-9 | An `else if` branch is an `if` statement, which is not flow control. |
| IfForFlowControl.NoAlternateReportsConsequentOnly | lib/if-for-flow-control.js:28-36 | An `if` without `else` reports at most its consequent. |
| IfForFlowControl.ElseIfAlwaysReported | lib/if-for-flow-control.js:36-41 | `else if` always produces a report for the alternate, and it is the last report. |
| IfForFlowControl.FlowControlBranchesPass | lib/if-for-flow-control.test.js:10-63 | Branches ending in one of the four flow-control statements report nothing. |
| IfForFlowControl.BothBranchesReported | lib/if-for-flow-control.test.js:100-121 | Two branches without flow control are reported, consequent first. |
| IfForFlowControl.OnlyAlternateReported | lib/if-for-flow-control.test.js:82-99 | With `return` in the consequent, only the alternate is reported. |
| IfForFlowControl.BracelessConsequentReported | lib/if-for-flow-control.test.js:122-136 | A brace-less `doSomething();` consequent is reported as that statement. |
| ComplexObjects.TrimStart | lib/complex-objects.js:22 | Removes exactly the leading run of white space. The result is a suffix and starts with a non-space. |
| ComplexObjects.TrimEnd | lib/complex-objects.js:22 | Removes exactly the trailing run of white space. The result is a prefix and ends with a non-space. |
| ComplexObjects.Trim | lib/complex-objects.js:22 | `trim()` never lengthens the text, and a non-empty result starts and ends with a non-space. |
| ComplexObjects.TrimIsInnerSlice | lib/complex-objects.js:22 | `trim()` is the slice between the white-space margins, and it starts and ends with a non-space. |
| ComplexObjects.TrimEndMargin | lib/complex-objects.js:22 | Trimming the end of a suffix leaves a slice followed by white space only. |
| ComplexObjects.TrimIdempotent | lib/complex-objects.js:22 | Trimming twice is trimming once. |
| ComplexObjects.BreakAt | lib/complex-objects.js:22 | The separator at the start of the text is a prefix of it: `\r\n` whenever the text starts with `\r\n`, otherwise `\r` or `\n`. There is none iff the text is empty or starts with an ordinary character. |
| ComplexObjects.SplitLines | lib/complex-objects.js:22 | The split never yields an empty list of pieces. |
| ComplexObjects.SplitLinesShape | lib/complex-objects.js:22 | There is one more piece than separators, and each separator is `\r\n`, `\r` or `\n`. |
| ComplexObjects.PiecesHaveNoBreaks | lib/complex-objects.js:22 | No piece contains `\r` or `\n`. |
| ComplexObjects.SplitLinesRoundTrip | lib/complex-objects.js:22 | Joining the pieces with the separators gives back the text. |
| ComplexObjects.JoinAfterBreak | lib/complex-objects.js:22 | A leading separator contributes an empty first piece to the join. |
| ComplexObjects.JoinFirstPiece | lib/complex-objects.js:22 | A leading ordinary character belongs to the first piece. |
| ComplexObjects.PieceCount | lib/complex-objects.js:22 | The piece count is the number of `\n`, plus the number of `\r` not followed by `\n`, plus one. |
| ComplexObjects.LineCount | lib/complex-objects.js:22 | The number of lines is one more than the line breaks of the trimmed text, `\r\n` counting once. |
| ComplexObjects.TooLongIffBreaks | lib/complex-objects.js:22 | A value is too long iff its trimmed text holds at least five line breaks, with `\r\n` counting once. |
| ComplexObjects.KeyName | lib/complex-objects.js:31-33 | An identifier key gives its name; any other key gives the text `undefined`. |
| ComplexObjects.TopStatement | lib/complex-objects.js:27-30 | A successful walk ends at the object or at an ancestor that is neither a `Program` nor a `BlockStatement`. When the parent is already one of those, the top is the object itself. |
| ComplexObjects.TopStatementOkIffStop | lib/complex-objects.js:27-30 | The walk of the fix succeeds iff some ancestor is a `Program` or a `BlockStatement`. |
| ComplexObjects.TopStatementIsBelowFirstStop | lib/complex-objects.js:27-30 | The top is the node just below the nearest `Program` or `BlockStatement` ancestor. |
| ComplexObjects.FindTop | lib/complex-objects.js:27-30 | The `while` loop ends at the same top as `TopStatement`, or throws where it does. |
| ComplexObjects.FixEdits | lib/complex-objects.js:26-34 | The fix exists iff the walk succeeds. It is two edits: insert `const <key> = <text>;\n` before the top, then replace the value with the key name. |
| ComplexObjects.FixFromTop | lib/complex-objects.js:31-33 | Once the walk has ended, the fix exists iff the walk succeeded. It inserts `const <key> = <text>;\n` before the top and replaces the value with the key name. |
| ComplexObjects.PropertyFinding | lib/complex-objects.js:17-35 | A property gets at most one finding, and one iff it is a `Property` whose value is more than five lines. The finding is about the property, with the rule's message and the fix of that property. |
| ComplexObjects.ObjectFindings | lib/complex-objects.js:17-37 | There is at most one finding per property. |
| ComplexObjects.FindingsAreLongProperties | lib/complex-objects.js:17-25 | Every finding is a property of the object whose value is too long, with the rule's message. Every such property has a finding. |
| ComplexObjects.ObjectFindingsAppend | lib/complex-objects.js:17-37 | The findings of a property list are those of its parts, in order. |
| ComplexObjects.ObjectOutcome | lib/complex-objects.js:17-37 | The handler throws iff some finding's fix throws. Otherwise it reports exactly `ObjectFindings` of the properties, and every fix holds its edits. |
| ComplexObjects.ThrowingFixAborts | lib/complex-objects.js:23-30 | One long-valued property whose fix walk throws makes the whole handler throw. |
| ComplexObjects.ReportProperty | lib/complex-objects.js:23-35 | A report throws iff the walk of its fix throws. Otherwise it is the property's finding. |
| ComplexObjects.VisitProperty | lib/complex-objects.js:17-36 | One turn of the loop either extends the findings by the property's own finding or ends in the exception that `ObjectOutcome` predicts. |
| ComplexObjects.OnObjectExpression | lib/complex-objects.js:14-38 | The handler's loop completes exactly as `ObjectOutcome` says: it throws iff some report's fix throws, and otherwise it reports `ObjectFindings` of the properties. |
| ComplexObjects.SplitPlain | lib/complex-objects.js:22 | An ordinary first character joins the first piece. |
| ComplexObjects.SplitAfterBreak | lib/complex-objects.js:22 | A leading separator starts a new piece. |
| ComplexObjects.SplitSingle | lib/complex-objects.js:22 | A one-character line is one piece. |
| ComplexObjects.SplitCharThenBreak | lib/complex-objects.js:22 | A character followed by a separator is a piece of its own. |
| ComplexObjects.CrLfIsOneBreak | lib/complex-objects.js:22 | `x\r\ny` is two pieces. |
| ComplexObjects.LoneBreaksSplit | lib/complex-objects.js:22 | `x\ry` and `x\ny` are two pieces each. |
| ComplexObjects.LfCrIsTwoBreaks | lib/complex-objects.js:22 | `x\n\ry` is three pieces. |
| ComplexObjects.CountBreaksCons | lib/complex-objects.js:22 | A leading `\n`, or a leading `\r` not followed by `\n`, counts one break. |
| ComplexObjects.CountBreaksNewLine | lib/complex-objects.js:22 | `c\n` before an ordinary character adds one break. |
| ComplexObjects.TrimWithoutMargins | lib/complex-objects.js:22 | A text without white-space margins is its own trim. |
| ComplexObjects.NewlineJoined | lib/complex-objects.test.js:41-105 | Lines joined by `\n` start with the first line and end with the last. |
| ComplexObjects.SplitLine | lib/complex-objects.js:22 | A line without breaks, followed by any text, merges into the first piece of that text's split. |
| ComplexObjects.SplitNewlineJoined | lib/complex-objects.js:22 | Lines without breaks joined by `\n` split back into exactly those lines. |
| ComplexObjects.NewlineJoinedBreaks | lib/complex-objects.js:22 | `n` lines joined by `\n` hold `n - 1` breaks. |
| ComplexObjects.MoreThanFiveLinesIsTooLong | lib/complex-objects.test.js:9-105 | Lines of any length without breaks, joined by `\n`, with a visible first and last character, split back into those lines after `trim()`. They are too long iff there are more than five. |
| ComplexObjects.SpreadIsSkipped | lib/complex-objects.test.js:31-37 | `{ ...supportSpread }` reports nothing. |
| ComplexObjects.HoistBeforeDeclaration | lib/complex-objects.test.js:73-104 | The fix for `const data = { complexArray: … }` inserts `const complexArray = <text>;\n` before the declaration and replaces the value with `complexArray`. |

## Left out

- ESLint's traversal, and its dispatch of nodes to handlers, are not modelled.
  The caller supplies each node with its parent or ancestors, and
  `max-conditional-depth` is driven by a supplied sequence of enter and exit
  events.
- The rules' `meta` objects, JSON schemas and ESLint's option validation are
  left out. `RuleOption` admits only the option shapes the schema allows.
- The `complex-objects` fixer is a generator. The model computes the two
  edits it yields eagerly, as a list. `getText` is a parameter of the
  handler, because the source text lives outside the syntax tree.
- `context.report` is not called. The handlers return or accumulate their
  reports. A `no-unconditional-function-calls` report is the offending node
  alone; its fixed message text is not carried. The `{{depth}}` and `{{maxDepth}}` placeholders of the `tooDeeply`
  message are kept as data fields and never interpolated.
- `findVariable` and `sourceCode.getScope` in `no-unconditional-function-calls`
  are not modelled. Their result is passed to a call that returns
  `undefined` whatever it is, so they cannot affect a report.
- The `ConditionalExpression` handler of `no-unconditional-function-calls`
  only walks up the parent chain and discards the result. It has no
  observable effect and is not modelled.
- The `sourceCode` bindings that `if-for-flow-control` and
  `max-conditional-depth` create and never use are left out.
- NoUnconditionalFunctionCalls.FirstSome: the extra `(index, array)`
  arguments that `findWithPredicate` passes to its predicate are dropped,
  because no predicate in the rule reads them.
- Strings are sequences of Unicode characters, not UTF-16 code units. A
  character outside the Basic Multilingual Plane is one character here
  instead of two. This changes neither `trim()` nor the line split, because
  the characters they test are all in that plane.
- ComplexObjects.PropertyFinding: `getText` is a function of the node value
  alone. Two structurally equal values therefore get the same text, although
  in the source they may differ in layout (spacing, comments, line breaks).
  The same holds for `ObjectFindings`, `ObjectOutcome` and
  `OnObjectExpression`, which use it.
- ComplexObjects.KeyName: the name of a non-identifier key is the text
  `undefined`. That is what the template stringifies. The model does not
  represent `undefined` as a separate value.
- The plugin's `lib/index.js` only re-exports the rules and is not part of
  this model.
