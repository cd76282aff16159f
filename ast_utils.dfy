/**
  Node-type predicates shared by the rules (lib/ast-utils.js): which nodes
  are functions, which are loops, which operators are logical assignments,
  and whether a node sits inside a loop of its own function.
 */
module AstUtils {
  import opened Estree

  const LogicalAssignmentOperators: set<string> := {"&&=", "||=", "??="}

  /** The node types the function pattern is meant to accept. */
  const FunctionTypes: set<string> := {"FunctionDeclaration", "FunctionExpression", "ArrowFunctionExpression"}

  /** The node types the loop pattern is meant to accept. */
  const LoopTypes: set<string> := {"DoWhileStatement", "ForStatement", "ForInStatement", "ForOfStatement", "WhileStatement"}

  /** The anchored pattern `^(?:Function(?:Declaration|Expression)|ArrowFunctionExpression)$`. */
  predicate MatchesFunctionPattern(t: string) {
    || (|t| >= 8 && t[..8] == "Function" && (t[8..] == "Declaration" || t[8..] == "Expression"))
    || t == "ArrowFunctionExpression"
  }

  /** The anchored pattern `^(?:DoWhile|For|ForIn|ForOf|While)Statement$`. */
  predicate MatchesLoopPattern(t: string) {
    && |t| >= 9
    && t[|t| - 9..] == "Statement"
    && t[..|t| - 9] in {"DoWhile", "For", "ForIn", "ForOf", "While"}
  }

  /** The function pattern accepts exactly the three function node types. */
  lemma FunctionPatternIsExact(t: string)
    ensures MatchesFunctionPattern(t) <==> t in FunctionTypes
  {
    if |t| >= 8 && t[..8] == "Function" {
      assert t == t[..8] + t[8..];
      if t[8..] == "Declaration" {
        assert t == "Function" + "Declaration";
      } else if t[8..] == "Expression" {
        assert t == "Function" + "Expression";
      }
    }
    if t == "FunctionDeclaration" {
      assert t[..8] == "Function" && t[8..] == "Declaration";
    } else if t == "FunctionExpression" {
      assert t[..8] == "Function" && t[8..] == "Expression";
    }
  }

  /** The loop pattern accepts exactly the five loop statement types. */
  lemma LoopPatternIsExact(t: string)
    ensures MatchesLoopPattern(t) <==> t in LoopTypes
  {
    if MatchesLoopPattern(t) { LoopPatternSound(t); }
    if t in LoopTypes { LoopPatternComplete(t); }
  }

  lemma LoopPatternSound(t: string)
    requires MatchesLoopPattern(t)
    ensures t in LoopTypes
  {
    var stem := t[..|t| - 9];
    assert t == stem + "Statement";
    LoopNamesJoin();
  }

  lemma LoopPatternComplete(t: string)
    requires t in LoopTypes
    ensures MatchesLoopPattern(t)
  {
    LoopNamesMatch();
  }

  /** Each stem of the alternation followed by `Statement` is one of the loop types. */
  lemma LoopNamesJoin()
    ensures "DoWhile" + "Statement" == "DoWhileStatement" && "For" + "Statement" == "ForStatement"
    ensures "ForIn" + "Statement" == "ForInStatement" && "ForOf" + "Statement" == "ForOfStatement"
    ensures "While" + "Statement" == "WhileStatement"
  {
  }

  /** Each loop type matches the pattern. */
  lemma LoopNamesMatch()
    ensures MatchesLoopPattern("DoWhileStatement") && MatchesLoopPattern("ForStatement")
    ensures MatchesLoopPattern("ForInStatement") && MatchesLoopPattern("ForOfStatement")
    ensures MatchesLoopPattern("WhileStatement")
  {
    assert "DoWhileStatement"[..7] == "DoWhile";
    assert "ForStatement"[..3] == "For";
    assert "ForInStatement"[..5] == "ForIn";
    assert "ForOfStatement"[..5] == "ForOf";
    assert "WhileStatement"[..5] == "While";
  }

  /** `isFunction`: `null` is not a function, and no function is a loop. */
  predicate IsFunction(node: Option<Node>)
    ensures IsFunction(node) ==> node.Some? && !IsLoop(node)
  {
    node.Some? && Type(node.value) in FunctionTypes
  }

  /** `isFunction` is the pattern test on the node's type, and `null` fails it. */
  lemma IsFunctionIsPatternTest(node: Option<Node>)
    ensures IsFunction(node) <==> node.Some? && MatchesFunctionPattern(Type(node.value))
  {
    if node.Some? { FunctionPatternIsExact(Type(node.value)); }
  }

  /** `isLoop`: `null` is not a loop, and neither is any kind with its own constructor. */
  predicate IsLoop(node: Option<Node>)
    ensures IsLoop(node) ==> node.Some? && node.value.Opaque?
  {
    node.Some? && Type(node.value) in LoopTypes
  }

  /** `isLoop` is the pattern test on the node's type, and `null` fails it. */
  lemma IsLoopIsPatternTest(node: Option<Node>)
    ensures IsLoop(node) <==> node.Some? && MatchesLoopPattern(Type(node.value))
  {
    if node.Some? { LoopPatternIsExact(Type(node.value)); }
  }

  /** `isLogicalAssignmentOperator`: an operator of `&&`, `||` or `??` followed by `=`. */
  function IsLogicalAssignmentOperator(operator: string): (r: bool)
    ensures r <==> |operator| == 3 && operator[2] == '=' && operator[..2] in {"&&", "||", "??"}
  {
    LogicalAssignmentShape(operator);
    operator in LogicalAssignmentOperators
  }

  lemma LogicalAssignmentShape(operator: string)
    ensures operator in LogicalAssignmentOperators <==>
      |operator| == 3 && operator[2] == '=' && operator[..2] in {"&&", "||", "??"}
  {
    if |operator| == 3 && operator[2] == '=' {
      assert operator == operator[..2] + "=";
    }
    if operator == "&&=" {
      assert operator[..2] == "&&" && operator[2] == '=';
    } else if operator == "||=" {
      assert operator[..2] == "||" && operator[2] == '=';
    } else if operator == "??=" {
      assert operator[..2] == "??" && operator[2] == '=';
    }
  }

  /**
    The parent chain walked by `isInLoop`: starting at the node itself, it
    stops at the first function node or when the chain runs out, and answers
    true as soon as it meets a loop.
   */
  predicate InLoop(chain: seq<Node>)
    ensures InLoop(chain) ==> chain != [] && !IsFunction(Some(chain[0]))
  {
    if chain == [] || IsFunction(Some(chain[0])) then false
    else IsLoop(Some(chain[0])) || InLoop(chain[1..])
  }

  /** Position `k` of the chain holds a loop and no function comes before it. */
  ghost predicate LoopBefore(chain: seq<Node>, k: int)
  {
    && 0 <= k < |chain|
    && IsLoop(Some(chain[k]))
    && forall j :: 0 <= j < k ==> !IsFunction(Some(chain[j]))
  }

  /** A chain is in a loop iff some loop on it has no function before it. */
  lemma {:induction false} InLoopIff(chain: seq<Node>)
    ensures InLoop(chain) <==> exists k :: LoopBefore(chain, k)
  {
    if chain == [] {
    } else if IsFunction(Some(chain[0])) {
      forall k | LoopBefore(chain, k) ensures false { }
    } else if IsLoop(Some(chain[0])) {
      assert LoopBefore(chain, 0);
    } else {
      var tail := chain[1..];
      InLoopIff(tail);
      if InLoop(chain) {
        var k :| LoopBefore(tail, k);
        LoopBeforeShift(chain, k);
      } else {
        forall k | LoopBefore(chain, k) ensures false {
          LoopBeforeShift(chain, k - 1);
        }
      }
    }
  }

  /** Past a first node that is not a function, a loop position moves down by one. */
  lemma LoopBeforeShift(chain: seq<Node>, k: int)
    requires chain != [] && !IsFunction(Some(chain[0])) && 0 <= k < |chain| - 1
    ensures LoopBefore(chain, k + 1) <==> LoopBefore(chain[1..], k)
  {
    var tail := chain[1..];
    assert chain[k + 1] == tail[k];
    if LoopBefore(tail, k) {
      forall j | 0 <= j < k + 1 ensures !IsFunction(Some(chain[j])) {
        if j > 0 { assert chain[j] == tail[j - 1]; }
      }
    }
    if LoopBefore(chain, k + 1) {
      forall j | 0 <= j < k ensures !IsFunction(Some(tail[j])) {
        assert tail[j] == chain[j + 1];
      }
    }
  }

  /** `isInLoop` over the node and its ancestors, nearest first. */
  method IsInLoop(node: Node, ancestors: seq<Node>) returns (r: bool)
    ensures r == InLoop([node] + ancestors)
    ensures r <==> exists k :: LoopBefore([node] + ancestors, k)
    ensures IsFunction(Some(node)) ==> !r
  {
    var chain := [node] + ancestors;
    var i := 0;
    while i < |chain| && !IsFunction(Some(chain[i]))
      invariant 0 <= i <= |chain|
      invariant InLoop(chain) == InLoop(chain[i..])
    {
      if IsLoop(Some(chain[i])) {
        InLoopIff(chain);
        return true;
      }
      InLoopStep(chain, i);
      i := i + 1;
    }
    InLoopIff(chain);
    return false;
  }

  /** Past a node that is neither a function nor a loop, the walk goes on to its parent. */
  lemma InLoopStep(chain: seq<Node>, i: nat)
    requires i < |chain| && !IsFunction(Some(chain[i])) && !IsLoop(Some(chain[i]))
    ensures InLoop(chain[i..]) == InLoop(chain[i + 1..])
  {
    assert chain[i..][0] == chain[i] && chain[i..][1..] == chain[i + 1..];
  }

  /** No node kind with a constructor of its own is a function or a loop: those are all `Opaque`. */
  lemma ModelledIsNeitherFunctionNorLoop(n: Node)
    requires !n.Opaque?
    ensures !IsFunction(Some(n)) && !IsLoop(Some(n))
  {
    assert FunctionTypes !! ModelledTypes;
    assert LoopTypes !! ModelledTypes;
  }

  /** The `isFunction` cases of lib/ast-utils.test.js: nodes of the given types, and `null`. */
  lemma IsFunctionExamples(declaration: Node, expression: Node, arrow: Node, variable: Node)
    requires Type(declaration) == "FunctionDeclaration" && Type(expression) == "FunctionExpression"
    requires Type(arrow) == "ArrowFunctionExpression" && Type(variable) == "VariableDeclaration"
    ensures IsFunction(Some(declaration)) && IsFunction(Some(expression)) && IsFunction(Some(arrow))
    ensures !IsFunction(Some(variable)) && !IsFunction(None)
  {
  }

  /** The `isLogicalAssignmentOperator` cases of lib/ast-utils.test.js. */
  lemma LogicalAssignmentExamples()
    ensures IsLogicalAssignmentOperator("&&=") && IsLogicalAssignmentOperator("||=") && IsLogicalAssignmentOperator("??=")
    ensures !IsLogicalAssignmentOperator("=") && !IsLogicalAssignmentOperator("+=")
    ensures !IsLogicalAssignmentOperator("-=") && !IsLogicalAssignmentOperator("*=")
  {
  }

  // The four parent chains of lib/ast-utils.test.js, nearest first.

  lemma InLoopUnderFor(x: string)
    ensures InLoop([Identifier(x), Opaque("ForStatement")])
  {
    var c := [Identifier(x), Opaque("ForStatement")];
    ModelledIsNeitherFunctionNorLoop(c[0]);
    assert c[1..] == [Opaque("ForStatement")];
  }

  lemma InLoopUnderIfUnderWhile(x: string, body: seq<Node>, test: Node, consequent: Node)
    ensures InLoop([Identifier(x), BlockStatement(body), IfStatement(test, consequent, None), Opaque("WhileStatement")])
  {
    var c := [Identifier(x), BlockStatement(body), IfStatement(test, consequent, None), Opaque("WhileStatement")];
    ModelledIsNeitherFunctionNorLoop(c[0]);
    ModelledIsNeitherFunctionNorLoop(c[1]);
    ModelledIsNeitherFunctionNorLoop(c[2]);
    assert IsLoop(Some(c[3]));
    assert LoopBefore(c, 3);
    InLoopIff(c);
  }

  lemma NotInLoopWithoutLoop(x: string, body: seq<Node>, test: Node, consequent: Node)
    ensures !InLoop([Identifier(x), BlockStatement(body), IfStatement(test, consequent, None)])
  {
    var c := [Identifier(x), BlockStatement(body), IfStatement(test, consequent, None)];
    forall k | 0 <= k < |c| ensures !IsLoop(Some(c[k])) {
      ModelledIsNeitherFunctionNorLoop(c[k]);
    }
    InLoopIff(c);
  }

  lemma NotInLoopAcrossFunction(x: string, body: seq<Node>)
    ensures !InLoop([Identifier(x), BlockStatement(body), Opaque("FunctionDeclaration"), Opaque("WhileStatement")])
  {
    var c := [Identifier(x), BlockStatement(body), Opaque("FunctionDeclaration"), Opaque("WhileStatement")];
    assert IsFunction(Some(c[2]));
    forall k | 0 <= k < |c| ensures !LoopBefore(c, k) {
      if k < 2 { ModelledIsNeitherFunctionNorLoop(c[k]); }
    }
    InLoopIff(c);
  }
}
