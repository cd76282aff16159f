/**
  The rule of lib/if-for-flow-control.js: each branch of an `if` must end
  in a statement that leaves the branch (`return`, `throw`, `continue` or
  `break`). The check runs when the traversal leaves an `IfStatement`.
 */
module IfForFlowControl {
  import opened Estree

  const FlowControlTypes: seq<string> := ["ReturnStatement", "ThrowStatement", "ContinueStatement", "BreakStatement"]

  const NotFlowControl := "notFlowControl"

  /** A report: the offending branch and the message id. */
  datatype Report = Report(node: Node, messageId: string)

  /** The statements of a branch: a block's body, or the brace-less statement alone. */
  function Statements(branch: Node): (r: seq<Node>)
    ensures branch.BlockStatement? ==> r == branch.body
    ensures !branch.BlockStatement? ==> r == [branch]
  {
    if Type(branch) == "BlockStatement" then branch.body else [branch]
  }

  /**
    `missingControlFlow`: the branch has a last statement and its type is
    not a flow-control type. An empty block has no last statement, and the
    `undefined` it yields is falsy.
   */
  predicate MissingControlFlow(branch: Node)
    ensures MissingControlFlow(branch) ==> !branch.ThrowStatement?
    ensures branch.BlockStatement? && branch.body != [] && Last(branch.body).ThrowStatement? ==> !MissingControlFlow(branch)
    ensures branch.BlockStatement? && MissingControlFlow(branch) ==> branch.body != []
  {
    var statements := Statements(branch);
    statements != [] && Type(Last(statements)) !in FlowControlTypes
  }

  /** `IfStatement:exit`: the consequent first, then the alternate when there is one. */
  function OnIfExit(node: Node): (r: seq<Report>)
    requires node.IfStatement?
    ensures |r| == (if MissingControlFlow(node.consequent) then 1 else 0)
      + (if node.alternate.Some? && MissingControlFlow(node.alternate.value) then 1 else 0)
    ensures MissingControlFlow(node.consequent) <==> |r| > 0 && r[0] == Report(node.consequent, NotFlowControl)
    ensures node.alternate.Some? ==>
      (MissingControlFlow(node.alternate.value) <==> |r| > 0 && Last(r) == Report(node.alternate.value, NotFlowControl))
    ensures forall k :: 0 <= k < |r| ==> r[k].messageId == NotFlowControl
  {
    (if MissingControlFlow(node.consequent) then [Report(node.consequent, NotFlowControl)] else [])
    + (if node.alternate.Some? && MissingControlFlow(node.alternate.value) then [Report(node.alternate.value, NotFlowControl)] else [])
  }

  // ---------------------------------------------------------------------
  // Properties of missingControlFlow
  // ---------------------------------------------------------------------

  /** A branch misses flow control iff it is a non-empty list whose last statement is not one of the four. */
  lemma MissingIffLastNotFlowControl(branch: Node)
    ensures MissingControlFlow(branch) <==>
      if branch.BlockStatement? then branch.body != [] && Type(Last(branch.body)) !in FlowControlTypes
      else Type(branch) !in FlowControlTypes
  {
  }

  /** An empty block is never reported. */
  lemma EmptyBlockNotMissing()
    ensures !MissingControlFlow(BlockStatement([]))
  {
  }

  /** Only the last statement of a block counts. */
  lemma OnlyLastStatementCounts(prefix: seq<Node>, last: Node)
    ensures MissingControlFlow(BlockStatement(prefix + [last])) <==> Type(last) !in FlowControlTypes
  {
    assert Last(prefix + [last]) == last;
  }

  /** A brace-less statement is judged as the block that holds only it. */
  lemma BracelessIsOneStatementBlock(statement: Node)
    requires !statement.BlockStatement?
    ensures MissingControlFlow(statement) == MissingControlFlow(BlockStatement([statement]))
  {
  }

  /** A block that ends in a nested block misses flow control, whatever the nested block ends with. */
  lemma NestedBlockIsMissing(prefix: seq<Node>, inner: seq<Node>)
    ensures MissingControlFlow(BlockStatement(prefix + [BlockStatement(inner)]))
  {
    OnlyLastStatementCounts(prefix, BlockStatement(inner));
  }

  /** An `else if` alternate is an `IfStatement`, which is not a flow-control statement. */
  lemma ElseIfIsMissing(test: Node, consequent: Node, alternate: Option<Node>)
    ensures MissingControlFlow(IfStatement(test, consequent, alternate))
  {
  }

  // ---------------------------------------------------------------------
  // Properties of the handler
  // ---------------------------------------------------------------------

  /** An `if` without `else` reports at most the consequent. */
  lemma NoAlternateReportsConsequentOnly(test: Node, consequent: Node)
    ensures OnIfExit(IfStatement(test, consequent, None)) ==
      if MissingControlFlow(consequent) then [Report(consequent, NotFlowControl)] else []
  {
  }

  /** An `if (…) … else if (…) …` always reports its alternate, as the last report. */
  lemma ElseIfAlwaysReported(test: Node, consequent: Node, elseIf: Node)
    requires elseIf.IfStatement?
    ensures var r := OnIfExit(IfStatement(test, consequent, Some(elseIf)));
      |r| > 0 && Last(r) == Report(elseIf, NotFlowControl)
  {
    ElseIfIsMissing(elseIf.test, elseIf.consequent, elseIf.alternate);
  }

  // ---------------------------------------------------------------------
  // The cases of lib/if-for-flow-control.test.js
  // ---------------------------------------------------------------------

  /** Branches ending in `return`, `throw`, `break` or `continue` report nothing. */
  lemma FlowControlBranchesPass(test: Node, work: Node, exit: Node)
    requires Type(exit) in FlowControlTypes
    ensures OnIfExit(IfStatement(test, BlockStatement([exit]), None)) == []
    ensures OnIfExit(IfStatement(test, BlockStatement([work, exit]), Some(BlockStatement([exit])))) == []
  {
    OnlyLastStatementCounts([work], exit);
    OnlyLastStatementCounts([], exit);
  }

  /** `if (c) { doSomething(); } else { doSomethingElse(); }` reports both blocks, consequent first. */
  lemma BothBranchesReported(test: Node, thenWork: Node, elseWork: Node)
    requires Type(thenWork) == "ExpressionStatement" && Type(elseWork) == "ExpressionStatement"
    ensures OnIfExit(IfStatement(test, BlockStatement([thenWork]), Some(BlockStatement([elseWork])))) ==
      [Report(BlockStatement([thenWork]), NotFlowControl), Report(BlockStatement([elseWork]), NotFlowControl)]
  {
    OnlyLastStatementCounts([], thenWork);
    OnlyLastStatementCounts([], elseWork);
  }

  /** `if (c) { return true; } else { doSomething(); }` reports only the alternate block. */
  lemma OnlyAlternateReported(test: Node, elseWork: Node)
    requires Type(elseWork) == "ExpressionStatement"
    ensures OnIfExit(IfStatement(test, BlockStatement([Opaque("ReturnStatement")]), Some(BlockStatement([elseWork])))) ==
      [Report(BlockStatement([elseWork]), NotFlowControl)]
  {
    var ret := Opaque("ReturnStatement");
    ReturnIsFlowControl(ret);
    WorkIsNotFlowControl(elseWork);
    OnlyAlternateMissing(IfStatement(test, BlockStatement([ret]), Some(BlockStatement([elseWork]))));
  }

  /** A block holding only a `return` does not miss flow control. */
  lemma ReturnIsFlowControl(ret: Node)
    requires Type(ret) == "ReturnStatement"
    ensures !MissingControlFlow(BlockStatement([ret]))
  {
    OnlyLastStatementCounts([], ret);
    assert [] + [ret] == [ret];
    assert FlowControlTypes[0] == Type(ret);
  }

  /** A block holding only an expression statement misses flow control. */
  lemma WorkIsNotFlowControl(work: Node)
    requires Type(work) == "ExpressionStatement"
    ensures MissingControlFlow(BlockStatement([work]))
  {
    OnlyLastStatementCounts([], work);
    assert [] + [work] == [work];
  }

  /** When only the alternate misses flow control, it is the single report. */
  lemma OnlyAlternateMissing(node: Node)
    requires node.IfStatement? && node.alternate.Some?
    requires !MissingControlFlow(node.consequent) && MissingControlFlow(node.alternate.value)
    ensures OnIfExit(node) == [Report(node.alternate.value, NotFlowControl)]
  {
  }

  /** `if (c) doSomething();` reports the expression statement itself. */
  lemma BracelessConsequentReported(test: Node, work: Node)
    requires Type(work) == "ExpressionStatement"
    ensures OnIfExit(IfStatement(test, work, None)) == [Report(work, NotFlowControl)]
  {
  }
}
