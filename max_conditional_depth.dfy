/**
  The `max-conditional-depth` rule (lib/max-conditional-depth.js).

  The rule keeps a stack of frames, one per open function-like scope; a
  frame lists the conditional constructs currently open in that scope. A
  construct is pushed when the traversal enters it and popped when it
  leaves, and a finding is logged whenever a push makes the innermost frame
  longer than `maxDepth`. A catch clause that rethrows its own binding is
  exempt.

  The pure functions below (`PushBlockStep`, `EnterStep`, ...) state what
  each handler does to the stack; the class `DepthTracker` holds the
  mutable state and its methods are proved against them. A handler that
  would throw a TypeError in JavaScript yields `TypeError` here and leaves
  the state as it was.
 */
module MaxConditionalDepth {
  import opened Estree

  /** `context.options[0]`, as admitted by the rule's schema. */
  datatype RuleOption =
    | NoOption
    | Number(n: nat)
    | Object(maximum: Option<nat>, max: Option<nat>)

  const DefaultMaxDepth: nat := 4

  const TooDeeply: string := "tooDeeply"

  /**
    `maxDepth` as `create` computes it. `None` stands for JavaScript's
    `undefined`, which `option.maximum || option.max` yields for
    `{maximum: 0}`; no length is greater than `undefined`.
   */
  function MaxDepthOf(option: RuleOption): (r: Option<nat>)
    ensures r.None? <==> option.Object? && option.maximum == Some(0) && option.max.None?
    ensures option.NoOption? || (option.Object? && option.maximum.None? && option.max.None?) ==> r == Some(DefaultMaxDepth)
    ensures option.Number? ==> r == Some(option.n)
    ensures option.Object? && option.maximum.Some? && option.maximum.value != 0 ==> r == option.maximum
    ensures option.Object? && (option.maximum.None? || option.maximum == Some(0)) && option.max.Some? ==> r == option.max
  {
    match option
    case NoOption => Some(DefaultMaxDepth)
    case Number(n) => Some(n)
    case Object(maximum, max) =>
      if maximum.None? && max.None? then Some(DefaultMaxDepth)
      else if maximum.Some? && maximum.value != 0 then maximum
      else max
  }

  /** The option forms of lib/max-conditional-depth.test.js, and the precedence of `maximum`. */
  lemma MaxDepthOptionExamples()
    ensures MaxDepthOf(NoOption) == Some(4)
    ensures MaxDepthOf(Number(2)) == Some(2)
    ensures MaxDepthOf(Object(None, Some(2))) == Some(2)
    ensures MaxDepthOf(Object(Some(2), None)) == Some(2)
    ensures MaxDepthOf(Object(Some(3), Some(2))) == Some(3)
    ensures MaxDepthOf(Object(Some(0), Some(2))) == Some(2)
    ensures MaxDepthOf(Object(Some(0), None)) == None
  {
  }

  // ---------------------------------------------------------------------
  // The rethrow guard
  // ---------------------------------------------------------------------

  /** `node.param?.name`, when truthy: only an identifier binding has a name. */
  function ParamName(param: Option<Node>): (r: Option<string>)
    ensures r.Some? <==> param.Some? && param.value.Identifier? && param.value.name != ""
    ensures r.Some? ==> param == Some(Identifier(r.value)) && r.value != ""
  {
    if param.Some? && param.value.Identifier? && param.value.name != "" then Some(param.value.name) else None
  }

  /** Node types whose `body` is a single node rather than an array. */
  const NodeBodyTypes: set<string> := {
    "DoWhileStatement", "ForStatement", "ForInStatement", "ForOfStatement",
    "WhileStatement", "WithStatement", "LabeledStatement", "FunctionDeclaration",
    "FunctionExpression", "ArrowFunctionExpression", "ClassDeclaration", "ClassExpression"
  }

  /** The node kinds whose `body` is an array of statements. */
  predicate HasListBody(n: Node)
  {
    n.Program? || n.BlockStatement? || n.StaticBlock?
  }

  /** The node kinds whose `body` is a single node: a catch clause's block, a loop's statement, ... */
  predicate HasNodeBody(n: Node)
  {
    n.CatchClause? || (n.Opaque? && Type(n) in NodeBodyTypes)
  }

  /**
    `n.body`, indexed as an array at `length - 1`. A node-valued `body` has no
    `length`, so the index reads `undefined`, as from an empty list; a node
    without `body` makes the read throw.
   */
  function BodyList(n: Node): (r: Result<seq<Node>>)
    ensures HasListBody(n) ==> r == Ok(n.body)
    ensures HasNodeBody(n) ==> r == Ok([])
    ensures r == TypeError <==> !HasListBody(n) && !HasNodeBody(n)
  {
    match n
    case Program(b) => Ok(b)
    case BlockStatement(b) => Ok(b)
    case StaticBlock(b) => Ok(b)
    case CatchClause(_, _) => Ok([])
    case Opaque(t) => if t in NodeBodyTypes then Ok([]) else TypeError
    case _ => TypeError
  }

  /** The consequent of a lone `if` in the catch block, else the catch block itself. */
  function EffectiveBody(c: Node): (r: Result<seq<Node>>)
    requires c.CatchClause?
    ensures !(|c.body| == 1 && c.body[0].IfStatement?) ==> r == Ok(c.body)
    ensures |c.body| == 1 && c.body[0].IfStatement? ==>
      var consequent := c.body[0].consequent;
      && (HasListBody(consequent) ==> r == Ok(consequent.body))
      && (HasNodeBody(consequent) ==> r == Ok([]))
      && (r == TypeError <==> !HasListBody(consequent) && !HasNodeBody(consequent))
  {
    if |c.body| == 1 && c.body[0].IfStatement? then BodyList(c.body[0].consequent) else Ok(c.body)
  }

  /** `isConditionalRethrow`; its falsy results (`undefined`, `false`) are all `false`. */
  function IsConditionalRethrow(node: Node): (r: Result<bool>)
    ensures !node.CatchClause? ==> r == Ok(false)
    ensures node.CatchClause? && ParamName(node.param).None? ==> r == Ok(false)
    ensures r == TypeError ==> node.CatchClause? && |node.body| == 1 && node.body[0].IfStatement?
  {
    if !node.CatchClause? || ParamName(node.param).None? then Ok(false)
    else
      match EffectiveBody(node)
      case TypeError => TypeError
      case Ok(statements) =>
        if statements == [] then Ok(false)
        else
          var last := Last(statements);
          Ok(last.ThrowStatement? && last.argument.Identifier? && ParamName(node.param).value == last.argument.name)
  }

  /**
    A catch with binding `x` is a guard iff its effective body ends with
    exactly `throw x`; any other ending, an empty effective body, or a
    missing binding is not a guard.
   */
  lemma GuardIff(c: Node, x: string)
    requires c.CatchClause? && ParamName(c.param) == Some(x)
    ensures IsConditionalRethrow(c) == Ok(true) <==>
      exists statements :: EffectiveBody(c) == Ok(statements) && statements != [] &&
        Last(statements) == ThrowStatement(Identifier(x))
  {
  }

  /**
    Only a catch block made of a single `if` whose consequent has no `body`
    (a brace-less `if (c) throw e;`, say) makes the classifier throw.
   */
  lemma GuardThrowsIff(c: Node)
    ensures IsConditionalRethrow(c) == TypeError <==>
      && c.CatchClause? && ParamName(c.param).Some?
      && |c.body| == 1 && c.body[0].IfStatement?
      && BodyList(c.body[0].consequent) == TypeError
  {
  }

  /**
    The catch clauses of lib/max-conditional-depth.test.js, plus the plain
    rethrow `throw e`, the braced `if (…) { throw e }`, a rethrow of another
    value, a catch without binding and the brace-less `if (…) throw e;`.
   */
  lemma GuardExamples(e: string, test: Node, work: Node)
    requires e != ""
    requires !work.ThrowStatement?
    ensures var rethrow := ThrowStatement(Identifier(e));
      && IsConditionalRethrow(CatchClause(Some(Identifier(e)), [IfStatement(test, BlockStatement([work]), None), rethrow])) == Ok(true)
      && IsConditionalRethrow(CatchClause(Some(Identifier(e)), [work, rethrow])) == Ok(true)
      && IsConditionalRethrow(CatchClause(Some(Identifier(e)), [IfStatement(test, BlockStatement([rethrow]), Some(BlockStatement([work])))])) == Ok(true)
      && IsConditionalRethrow(CatchClause(Some(Identifier(e)), [ThrowStatement(Opaque("NewExpression"))])) == Ok(false)
      && IsConditionalRethrow(CatchClause(Some(Identifier(e)), [ThrowStatement(Identifier(e + "2"))])) == Ok(false)
      && IsConditionalRethrow(CatchClause(None, [rethrow])) == Ok(false)
      && IsConditionalRethrow(CatchClause(Some(Identifier(e)), [IfStatement(test, BlockStatement([]), None)])) == Ok(false)
      && IsConditionalRethrow(CatchClause(Some(Identifier(e)), [IfStatement(test, rethrow, None)])) == TypeError
      && IsConditionalRethrow(CatchClause(Some(Identifier(e)), [IfStatement(test, Opaque("WhileStatement"), None)])) == Ok(false)
  {
    RethrowsAreGuards(e, test, work);
    OtherCatchesAreNotGuards(e, test);
  }

  /** The three shapes of `GuardExamples` that are guards. */
  lemma RethrowsAreGuards(e: string, test: Node, work: Node)
    requires e != ""
    requires !work.ThrowStatement?
    ensures var rethrow := ThrowStatement(Identifier(e));
      && IsConditionalRethrow(CatchClause(Some(Identifier(e)), [IfStatement(test, BlockStatement([work]), None), rethrow])) == Ok(true)
      && IsConditionalRethrow(CatchClause(Some(Identifier(e)), [work, rethrow])) == Ok(true)
      && IsConditionalRethrow(CatchClause(Some(Identifier(e)), [IfStatement(test, BlockStatement([rethrow]), Some(BlockStatement([work])))])) == Ok(true)
  {
  }

  /** The shapes of `GuardExamples` that are not guards, or throw. */
  lemma OtherCatchesAreNotGuards(e: string, test: Node)
    requires e != ""
    ensures var rethrow := ThrowStatement(Identifier(e));
      && IsConditionalRethrow(CatchClause(Some(Identifier(e)), [ThrowStatement(Opaque("NewExpression"))])) == Ok(false)
      && IsConditionalRethrow(CatchClause(Some(Identifier(e)), [ThrowStatement(Identifier(e + "2"))])) == Ok(false)
      && IsConditionalRethrow(CatchClause(None, [rethrow])) == Ok(false)
      && IsConditionalRethrow(CatchClause(Some(Identifier(e)), [IfStatement(test, BlockStatement([]), None)])) == Ok(false)
      && IsConditionalRethrow(CatchClause(Some(Identifier(e)), [IfStatement(test, rethrow, None)])) == TypeError
      && IsConditionalRethrow(CatchClause(Some(Identifier(e)), [IfStatement(test, Opaque("WhileStatement"), None)])) == Ok(false)
  {
    assert |e + "2"| == |e| + 1;
    assert e + "2" != e;
  }

  // ---------------------------------------------------------------------
  // The frame stack, as pure functions
  // ---------------------------------------------------------------------

  /** The handlers that open and close a frame. */
  const FunctionLikeTypes: set<string> := {
    "Program", "FunctionDeclaration", "FunctionExpression", "ArrowFunctionExpression", "StaticBlock"
  }

  /** The conditionals pushed unconditionally (`IfStatement` is handled apart). */
  const BlockTypes: set<string> := {
    "SwitchStatement", "CatchClause", "DoWhileStatement", "WhileStatement", "WithStatement",
    "ForStatement", "ForInStatement", "ForOfStatement", "ConditionalExpression"
  }

  type Stack = seq<seq<Node>>

  /** A `tooDeeply` report: the node, and the `depth` and `maxDepth` of its data. */
  datatype Finding = Finding(node: Node, messageId: string, depth: nat, maxDepth: nat)

  /** The depth reported against: the length of the innermost frame. */
  function Depth(stack: Stack): nat
  {
    if stack == [] then 0 else |Last(stack)|
  }

  /** `startFunction`. */
  function OpenFrame(stack: Stack): (r: Stack)
    ensures |r| == |stack| + 1 && r[..|stack|] == stack
    ensures Last(r) == [] && Depth(r) == 0
  {
    stack + [[]]
  }

  /** `endFunction`: `Array.prototype.pop` on an empty array changes nothing. */
  function CloseFrame(stack: Stack): (r: Stack)
    ensures stack != [] ==> r + [Last(stack)] == stack
    ensures stack == [] ==> r == []
  {
    if stack == [] then [] else Front(stack)
  }

  /** A `tooDeeply` report as `pushBlock` makes it: its depth is past a defined `maxDepth`. */
  predicate PastLimit(f: Finding, maxDepth: Option<nat>)
  {
    f.messageId == TooDeeply && maxDepth.Some? && f.maxDepth == maxDepth.value && f.depth > f.maxDepth
  }

  /**
    `pushBlock`: its new stack and the findings it reports. A guard changes
    nothing; otherwise reading the innermost frame of an empty stack throws.
   */
  function PushBlockStep(stack: Stack, maxDepth: Option<nat>, node: Node): (r: Result<(Stack, seq<Finding>)>)
    ensures r == TypeError <==>
      IsConditionalRethrow(node) == TypeError || (IsConditionalRethrow(node) == Ok(false) && stack == [])
    ensures IsConditionalRethrow(node) == Ok(true) ==> r == Ok((stack, []))
    ensures r.Ok? ==> |r.value.0| == |stack| && |r.value.1| <= 1
    ensures r.Ok? ==> forall f :: f in r.value.1 ==> f.node == node && PastLimit(f, maxDepth)
  {
    match IsConditionalRethrow(node)
    case TypeError => TypeError
    case Ok(guard) =>
      if guard then Ok((stack, []))
      else if stack == [] then TypeError
      else
        var current := Last(stack) + [node];
        Ok((Front(stack) + [current],
            if maxDepth.Some? && |current| > maxDepth.value then [Finding(node, TooDeeply, |current|, maxDepth.value)] else []))
  }

  /** `popBlock`: it drops the last entry of the innermost frame; popping an empty frame changes nothing. */
  function PopBlockStep(stack: Stack, node: Node): (r: Result<Stack>)
    ensures r == TypeError <==>
      IsConditionalRethrow(node) == TypeError || (IsConditionalRethrow(node) == Ok(false) && stack == [])
    ensures IsConditionalRethrow(node) == Ok(true) ==> r == Ok(stack)
    ensures IsConditionalRethrow(node) == Ok(false) && stack != [] ==>
      && r.Ok? && |r.value| == |stack| && Front(r.value) == Front(stack)
      && (Last(stack) == [] ==> Last(r.value) == [])
      && (Last(stack) != [] ==> Last(r.value) + [Last(Last(stack))] == Last(stack))
  {
    match IsConditionalRethrow(node)
    case TypeError => TypeError
    case Ok(guard) =>
      if guard then Ok(stack)
      else if stack == [] then TypeError
      else
        var current := Last(stack);
        Ok(Front(stack) + [if current == [] then [] else Front(current)])
  }

  /**
    The enter handlers of the rule's table; node types without one change
    nothing. An `if` reads its parent's type, and a missing parent throws.
   */
  function EnterStep(stack: Stack, maxDepth: Option<nat>, node: Node, parent: Option<Node>): (r: Result<(Stack, seq<Finding>)>)
    ensures Type(node) in FunctionLikeTypes ==> r == Ok((OpenFrame(stack), []))
    ensures node.IfStatement? && parent.None? ==> r == TypeError
    ensures node.IfStatement? && parent.Some? && parent.value.IfStatement? ==> r == Ok((stack, []))
    ensures (node.IfStatement? && parent.Some? && !parent.value.IfStatement?) || Type(node) in BlockTypes ==>
      r == PushBlockStep(stack, maxDepth, node)
    ensures !node.IfStatement? && Type(node) !in FunctionLikeTypes && Type(node) !in BlockTypes ==> r == Ok((stack, []))
    ensures r.Ok? ==> forall f :: f in r.value.1 ==> f.node == node && PastLimit(f, maxDepth)
  {
    var t := Type(node);
    if t in FunctionLikeTypes then Ok((OpenFrame(stack), []))
    else if t == "IfStatement" then
      if parent.None? then TypeError
      else if Type(parent.value) != "IfStatement" then PushBlockStep(stack, maxDepth, node)
      else Ok((stack, []))
    else if t in BlockTypes then PushBlockStep(stack, maxDepth, node)
    else Ok((stack, []))
  }

  /** The exit handlers of the rule's table: every `IfStatement` exit pops, whatever its parent. */
  function ExitStep(stack: Stack, node: Node): (r: Result<Stack>)
    ensures Type(node) in FunctionLikeTypes ==> r == Ok(CloseFrame(stack))
    ensures node.IfStatement? || Type(node) in BlockTypes ==> r == PopBlockStep(stack, node)
    ensures !node.IfStatement? && Type(node) !in FunctionLikeTypes && Type(node) !in BlockTypes ==> r == Ok(stack)
  {
    var t := Type(node);
    if t in FunctionLikeTypes then Ok(CloseFrame(stack))
    else if t == "IfStatement" || t in BlockTypes then PopBlockStep(stack, node)
    else Ok(stack)
  }

  /** One traversal event, with the parent link the enter handler reads. */
  datatype Event = EnterNode(node: Node, parent: Option<Node>) | ExitNode(node: Node)

  /** One handler call; an exit handler never reports. */
  function Step(stack: Stack, maxDepth: Option<nat>, e: Event): (r: Result<(Stack, seq<Finding>)>)
    ensures e.EnterNode? ==> r == EnterStep(stack, maxDepth, e.node, e.parent)
    ensures e.ExitNode? ==> (r.Ok? <==> ExitStep(stack, e.node).Ok?)
    ensures e.ExitNode? && r.Ok? ==> r.value == (ExitStep(stack, e.node).value, [])
    ensures r.Ok? ==> forall f :: f in r.value.1 ==> e.EnterNode? && f.node == e.node && PastLimit(f, maxDepth)
  {
    match e
    case EnterNode(n, p) => EnterStep(stack, maxDepth, n, p)
    case ExitNode(n) =>
      match ExitStep(stack, n)
      case TypeError => TypeError
      case Ok(s) => Ok((s, []))
  }

  /**
    The handlers run over a sequence of events: the final stack and every
    finding, in order. Each finding is past a defined limit and is about a
    node some event entered.
   */
  function Run(stack: Stack, maxDepth: Option<nat>, events: seq<Event>): (r: Result<(Stack, seq<Finding>)>)
    ensures events == [] ==> r == Ok((stack, []))
    ensures r.Ok? ==> forall f :: f in r.value.1 ==>
      PastLimit(f, maxDepth) && exists e :: e in events && e.EnterNode? && e.node == f.node
    decreases |events|
  {
    if events == [] then Ok((stack, []))
    else
      match Step(stack, maxDepth, events[0])
      case TypeError => TypeError
      case Ok((s, f)) =>
        match Run(s, maxDepth, events[1..])
        case TypeError => TypeError
        case Ok((s', f')) => Ok((s', f + f'))
  }

  // ---------------------------------------------------------------------
  // Properties of the handlers
  // ---------------------------------------------------------------------

  /** A guard is neither pushed nor popped, and reports nothing. */
  lemma GuardIsExempt(stack: Stack, maxDepth: Option<nat>, node: Node)
    requires IsConditionalRethrow(node) == Ok(true)
    ensures PushBlockStep(stack, maxDepth, node) == Ok((stack, []))
    ensures PopBlockStep(stack, node) == Ok(stack)
  {
  }

  /**
    A push that is not a guard appends the node to the innermost frame and
    reports iff the new length exceeds `maxDepth`, with that length as the
    depth; the node stays pushed after a report.
   */
  lemma PushReportsIffTooDeep(stack: Stack, maxDepth: Option<nat>, node: Node)
    requires IsConditionalRethrow(node) == Ok(false) && stack != []
    ensures var r := PushBlockStep(stack, maxDepth, node);
      && r.Ok?
      && r.value.0 == Front(stack) + [Last(stack) + [node]]
      && Depth(r.value.0) == Depth(stack) + 1
      && (r.value.1 != [] <==> maxDepth.Some? && Depth(stack) + 1 > maxDepth.value)
      && (r.value.1 != [] ==> r.value.1 == [Finding(node, TooDeeply, Depth(stack) + 1, maxDepth.value)])
  {
  }

  /** Findings depend on the innermost frame only: the frames of enclosing functions do not count. */
  lemma DepthIsInnermostFrame(outer1: Stack, outer2: Stack, frame: seq<Node>, maxDepth: Option<nat>, node: Node)
    ensures var r1, r2 := PushBlockStep(outer1 + [frame], maxDepth, node), PushBlockStep(outer2 + [frame], maxDepth, node);
      r1.Ok? == r2.Ok? && (r1.Ok? ==> r1.value.1 == r2.value.1 && Last(r1.value.0) == Last(r2.value.0))
  {
    assert Last(outer1 + [frame]) == frame == Last(outer2 + [frame]);
    assert Front(outer1 + [frame]) == outer1;
    assert Front(outer2 + [frame]) == outer2;
  }

  /** A function-like node opens an empty frame on entry and drops its frame, whatever it holds, on exit. */
  lemma FunctionScopeIsFresh(stack: Stack, maxDepth: Option<nat>, f: Node, parent: Option<Node>, inner: seq<Node>)
    requires Type(f) in FunctionLikeTypes
    ensures EnterStep(stack, maxDepth, f, parent) == Ok((stack + [[]], []))
    ensures Depth(stack + [[]]) == 0
    ensures ExitStep(stack + [inner], f) == Ok(stack)
  {
    assert Front(stack + [inner]) == stack;
  }

  /**
    Entering and leaving a pushed construct restores the stack, even when the
    entry reported: depth tracking carries on past a finding.
   */
  lemma {:induction false} EnterExitRestores(stack: Stack, maxDepth: Option<nat>, node: Node, parent: Node)
    requires stack != [] && IsConditionalRethrow(node) == Ok(false)
    requires (node.IfStatement? && !parent.IfStatement?) || Type(node) in BlockTypes
    ensures var r := Run(stack, maxDepth, [EnterNode(node, Some(parent)), ExitNode(node)]);
      r.Ok? && r.value.0 == stack
  {
    var events := [EnterNode(node, Some(parent)), ExitNode(node)];
    PushedEntryStep(stack, maxDepth, events[0]);
    var pushed := Front(stack) + [Last(stack) + [node]];
    var found := PushFinding(|Last(stack)|, maxDepth, node);
    assert Last(pushed) == Last(stack) + [node] && Front(pushed) == Front(stack);
    assert Front(Last(stack) + [node]) == Last(stack);
    assert Front(stack) + [Last(stack)] == stack;
    assert PopBlockStep(pushed, node) == Ok(stack);
    assert Step(pushed, maxDepth, events[1]) == Ok((stack, []));
    assert events[1..][1..] == [];
    RunCons(pushed, maxDepth, events[1..], stack, [], stack, []);
    RunCons(stack, maxDepth, events, pushed, found, stack, []);
  }

  /**
    An `if` whose parent is an `if` is not pushed, yet its exit pops: leaving
    `if (a) {} else if (b) {}` pops the outer `if` early and then pops the
    construct that enclosed the chain (nothing, when the frame is empty).
   */
  lemma {:induction false} IfUnderIfPopsTwice(outer: Stack, frame: seq<Node>, maxDepth: Option<nat>, first: Node, second: Node)
    requires first.IfStatement? && second.IfStatement?
    ensures var before := outer + [frame + [first]];
      Run(before, maxDepth, [EnterNode(second, Some(first)), ExitNode(second), ExitNode(first)])
        == Ok((outer + [if frame == [] then [] else Front(frame)], []))
  {
    var before := outer + [frame + [first]];
    var events := [EnterNode(second, Some(first)), ExitNode(second), ExitNode(first)];
    var middle := outer + [frame];
    var after := outer + [if frame == [] then [] else Front(frame)];
    assert Last(before) == frame + [first] && Front(before) == outer;
    assert Front(frame + [first]) == frame;
    assert Last(middle) == frame && Front(middle) == outer;
    assert Step(before, maxDepth, events[0]) == Ok((before, []));
    assert Step(before, maxDepth, events[1]) == Ok((middle, []));
    assert Step(middle, maxDepth, events[2]) == Ok((after, []));
    assert events[1..][1..][1..] == [];
    assert Run(after, maxDepth, events[1..][1..][1..]) == Ok((after, []));
    RunCons(middle, maxDepth, events[1..][1..], after, [], after, []);
    RunCons(before, maxDepth, events[1..], middle, [], after, []);
    RunCons(before, maxDepth, events, before, [], after, []);
  }

  /** With `maxDepth` undefined (`{maximum: 0}`) no sequence of events reports anything. */
  lemma {:induction false} UndefinedMaxNeverReports(stack: Stack, events: seq<Event>)
    ensures Run(stack, None, events).Ok? ==> Run(stack, None, events).value.1 == []
    decreases |events|
  {
    if events != [] {
      match Step(stack, None, events[0])
      case TypeError =>
      case Ok((s, f)) =>
        UndefinedMaxNeverReports(s, events[1..]);
    }
  }

  /** The entry event of a construct that the rule pushes. */
  predicate PushedEntry(e: Event)
  {
    && e.EnterNode? && e.parent.Some?
    && IsConditionalRethrow(e.node) == Ok(false)
    && ((e.node.IfStatement? && !e.parent.value.IfStatement?) || Type(e.node) in BlockTypes)
  }

  /** Every event enters a construct that the rule pushes. */
  predicate AllPushed(events: seq<Event>)
    decreases |events|
  {
    events == [] || (PushedEntry(events[0]) && AllPushed(events[1..]))
  }

  function EnteredNodes(events: seq<Event>): (r: seq<Node>)
    ensures |r| == |events| && forall i :: 0 <= i < |events| ==> r[i] == events[i].node
  {
    if events == [] then [] else [events[0].node] + EnteredNodes(events[1..])
  }

  /** The finding of a push that brings the innermost frame from `depth` to `depth + 1`. */
  function PushFinding(depth: nat, maxDepth: Option<nat>, node: Node): seq<Finding>
  {
    if maxDepth.Some? && depth + 1 > maxDepth.value then [Finding(node, TooDeeply, depth + 1, maxDepth.value)] else []
  }

  /** The findings of pushing `events`' nodes one after another onto a frame of length `depth`. */
  function ChainFindings(depth: nat, maxDepth: Option<nat>, events: seq<Event>): seq<Finding>
    decreases |events|
  {
    if events == [] then []
    else PushFinding(depth, maxDepth, events[0].node) + ChainFindings(depth + 1, maxDepth, events[1..])
  }

  /** `Run` after a first step and a remainder that both complete. */
  lemma RunCons(stack: Stack, maxDepth: Option<nat>, events: seq<Event>, s: Stack, f: seq<Finding>, s': Stack, f': seq<Finding>)
    requires events != [] && Step(stack, maxDepth, events[0]) == Ok((s, f))
    requires Run(s, maxDepth, events[1..]) == Ok((s', f'))
    ensures Run(stack, maxDepth, events) == Ok((s', f + f'))
    ensures f' == [] ==> Run(stack, maxDepth, events) == Ok((s', f))
    ensures f == [] ==> Run(stack, maxDepth, events) == Ok((s', f'))
  {
    assert f' == [] ==> f + f' == f;
    assert f == [] ==> f + f' == f';
  }

  lemma PushedEntryStep(stack: Stack, maxDepth: Option<nat>, e: Event)
    requires stack != [] && PushedEntry(e)
    ensures Step(stack, maxDepth, e) == Ok((Front(stack) + [Last(stack) + [e.node]], PushFinding(|Last(stack)|, maxDepth, e.node)))
  {
  }

  /** Appending `x` to the innermost frame and then `rest` is appending `[x] + rest`. */
  lemma FrameAppend(stack: Stack, x: Node, rest: seq<Node>)
    requires stack != []
    ensures var pushed := Front(stack) + [Last(stack) + [x]];
      Front(pushed) + [Last(pushed) + rest] == Front(stack) + [Last(stack) + ([x] + rest)]
  {
    assert Last(stack) + [x] + rest == Last(stack) + ([x] + rest);
  }

  /** Entering nested pushed constructs stacks them all on the innermost frame, reporting each one past the limit. */
  lemma {:induction false} NestedEntries(stack: Stack, maxDepth: Option<nat>, events: seq<Event>)
    requires stack != [] && AllPushed(events)
    ensures Run(stack, maxDepth, events) == Ok((Front(stack) + [Last(stack) + EnteredNodes(events)], ChainFindings(|Last(stack)|, maxDepth, events)))
    decreases |events|
  {
    if events == [] {
      assert Last(stack) + [] == Last(stack);
      assert Front(stack) + [Last(stack)] == stack;
    } else {
      var e, rest := events[0], events[1..];
      var pushed := Front(stack) + [Last(stack) + [e.node]];
      PushedEntryStep(stack, maxDepth, e);
      NestedEntries(pushed, maxDepth, rest);
      FrameAppend(stack, e.node, EnteredNodes(rest));
      RunCons(stack, maxDepth, events, pushed, PushFinding(|Last(stack)|, maxDepth, e.node),
        Front(pushed) + [Last(pushed) + EnteredNodes(rest)], ChainFindings(|Last(pushed)|, maxDepth, rest));
    }
  }

  lemma {:induction false} ChainWithinLimit(depth: nat, max: nat, events: seq<Event>)
    requires depth + |events| <= max
    ensures ChainFindings(depth, Some(max), events) == []
    decreases |events|
  {
    if events != [] { ChainWithinLimit(depth + 1, max, events[1..]); }
  }

  lemma {:induction false} ChainOnePastLimit(depth: nat, max: nat, events: seq<Event>)
    requires depth <= max && depth + |events| == max + 1
    ensures ChainFindings(depth, Some(max), events) == [Finding(Last(events).node, TooDeeply, max + 1, max)]
    decreases |events|
  {
    if depth + 1 == max + 1 {
      assert |events| == 1 && Last(events) == events[0];
      assert events[1..] == [];
    } else {
      ChainOnePastLimit(depth + 1, max, events[1..]);
      assert Last(events[1..]) == Last(events);
    }
  }

  lemma FunctionEntryStep(stack: Stack, maxDepth: Option<nat>, e: Event)
    requires e.EnterNode? && Type(e.node) in FunctionLikeTypes
    ensures Step(stack, maxDepth, e) == Ok((stack + [[]], []))
  {
  }

  /** Entering a function and then nested pushed constructs stacks them all on the function's fresh frame. */
  lemma FunctionThenNested(stack: Stack, maxDepth: Option<nat>, f: Node, parent: Option<Node>, events: seq<Event>)
    requires Type(f) in FunctionLikeTypes && AllPushed(events)
    ensures Run(stack, maxDepth, [EnterNode(f, parent)] + events) == Ok((stack + [EnteredNodes(events)], ChainFindings(0, maxDepth, events)))
  {
    var all := [EnterNode(f, parent)] + events;
    var withFrame := stack + [[]];
    assert all[0] == EnterNode(f, parent) && all[1..] == events;
    FunctionEntryStep(stack, maxDepth, all[0]);
    NestedEntries(withFrame, maxDepth, events);
    assert Front(withFrame) == stack && Last(withFrame) == [];
    assert [] + EnteredNodes(events) == EnteredNodes(events);
    RunCons(stack, maxDepth, all, withFrame, [], stack + [EnteredNodes(events)], ChainFindings(0, maxDepth, events));
  }

  /**
    Inside a fresh function scope, whatever encloses it, `max` nested pushed
    constructs report nothing and `max + 1` report once, at the innermost,
    with depth `max + 1`.
   */
  lemma NestingBoundary(stack: Stack, max: nat, f: Node, parent: Option<Node>, events: seq<Event>)
    requires Type(f) in FunctionLikeTypes && AllPushed(events)
    ensures |events| <= max ==> Run(stack, Some(max), [EnterNode(f, parent)] + events) == Ok((stack + [EnteredNodes(events)], []))
    ensures |events| == max + 1 ==>
      Run(stack, Some(max), [EnterNode(f, parent)] + events) == Ok((stack + [EnteredNodes(events)], [Finding(Last(events).node, TooDeeply, max + 1, max)]))
  {
    FunctionThenNested(stack, Some(max), f, parent, events);
    if |events| <= max { ChainWithinLimit(0, max, events); }
    if |events| == max + 1 { ChainOnePastLimit(0, max, events); }
  }

  // ---------------------------------------------------------------------
  // The rule's state
  // ---------------------------------------------------------------------

  /** The state change and findings a handler produced match its pure step `r`. */
  predicate Follows(ok: bool, r: Result<(Stack, seq<Finding>)>, stack0: Stack, findings0: seq<Finding>, stack1: Stack, findings1: seq<Finding>)
  {
    && ok == r.Ok?
    && (ok ==> stack1 == r.value.0 && findings1 == findings0 + r.value.1)
    && (!ok ==> stack1 == stack0 && findings1 == findings0)
  }

  /** The closure state of one `create(context)` call. */
  class DepthTracker {
    var functionStack: Stack
    var findings: seq<Finding>
    const maxDepth: Option<nat>

    constructor (option: RuleOption)
      ensures functionStack == [] && findings == [] && maxDepth == MaxDepthOf(option)
    {
      functionStack := [];
      findings := [];
      maxDepth := MaxDepthOf(option);
    }

    method StartFunction()
      modifies this
      ensures functionStack == OpenFrame(old(functionStack)) && findings == old(findings)
    {
      functionStack := functionStack + [[]];
    }

    method EndFunction()
      modifies this
      ensures functionStack == CloseFrame(old(functionStack)) && findings == old(findings)
    {
      if |functionStack| > 0 {
        functionStack := functionStack[..|functionStack| - 1];
      }
    }

    /** `ok` is false where `pushBlock` throws. */
    method PushBlock(node: Node) returns (ok: bool)
      modifies this
      ensures Follows(ok, PushBlockStep(old(functionStack), maxDepth, node), old(functionStack), old(findings), functionStack, findings)
    {
      var guard := IsConditionalRethrow(node);
      if guard.TypeError? {
        return false;
      }
      if guard.value {
        return true;
      }
      if |functionStack| == 0 {
        return false;
      }
      var currentStack := functionStack[|functionStack| - 1] + [node];
      functionStack := functionStack[..|functionStack| - 1] + [currentStack];
      if maxDepth.Some? && |currentStack| > maxDepth.value {
        findings := findings + [Finding(node, TooDeeply, |currentStack|, maxDepth.value)];
      }
      return true;
    }

    /** `ok` is false where `popBlock` throws. */
    method PopBlock(node: Node) returns (ok: bool)
      modifies this
      ensures ok == PopBlockStep(old(functionStack), node).Ok?
      ensures ok ==> functionStack == PopBlockStep(old(functionStack), node).value
      ensures !ok ==> functionStack == old(functionStack)
      ensures findings == old(findings)
    {
      var guard := IsConditionalRethrow(node);
      if guard.TypeError? {
        return false;
      }
      if guard.value {
        return true;
      }
      if |functionStack| == 0 {
        return false;
      }
      var currentStack := functionStack[|functionStack| - 1];
      if |currentStack| > 0 {
        currentStack := currentStack[..|currentStack| - 1];
      }
      functionStack := functionStack[..|functionStack| - 1] + [currentStack];
      return true;
    }

    /** The enter half of the handler table. */
    method Enter(node: Node, parent: Option<Node>) returns (ok: bool)
      modifies this
      ensures Follows(ok, EnterStep(old(functionStack), maxDepth, node, parent), old(functionStack), old(findings), functionStack, findings)
    {
      var t := Type(node);
      if t in FunctionLikeTypes {
        StartFunction();
        return true;
      }
      if t == "IfStatement" {
        if parent.None? {
          return false;
        }
        if Type(parent.value) != "IfStatement" {
          ok := PushBlock(node);
        } else {
          ok := true;
        }
        return;
      }
      if t in BlockTypes {
        ok := PushBlock(node);
        return;
      }
      return true;
    }

    /** The exit half of the handler table. */
    method Exit(node: Node) returns (ok: bool)
      modifies this
      ensures ok == ExitStep(old(functionStack), node).Ok?
      ensures ok ==> functionStack == ExitStep(old(functionStack), node).value
      ensures !ok ==> functionStack == old(functionStack)
      ensures findings == old(findings)
    {
      var t := Type(node);
      if t in FunctionLikeTypes {
        EndFunction();
        return true;
      }
      if t == "IfStatement" || t in BlockTypes {
        ok := PopBlock(node);
        return;
      }
      return true;
    }
  }
}
