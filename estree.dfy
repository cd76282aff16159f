/**
  The ESTree syntax nodes that the plugin's rules inspect.

  A node is a value: the rules never change the tree. Each constructor keeps
  only the children that some rule reads; every other node kind is an
  `Opaque` node that carries nothing but its `type` string. Parent links are
  not part of a node: a rule that looks upward receives its parent or its
  list of ancestors (nearest first) next to the node.
 */
module Estree {

  datatype Option<+T> = None | Some(value: T)

  /** The completion of a JavaScript call: a value, or a thrown TypeError. */
  datatype Result<+T> = Ok(value: T) | TypeError

  /** The `type` strings of the node kinds that have their own constructor. */
  const ModelledTypes: set<string> := {
    "Program", "BlockStatement", "StaticBlock", "IfStatement", "CatchClause",
    "ThrowStatement", "ConditionalExpression", "LogicalExpression",
    "BinaryExpression", "ArrayExpression", "ObjectExpression", "Property",
    "SpreadElement", "TemplateLiteral", "CallExpression", "Identifier", "Literal"
  }

  /** The `type` of a node kind whose children no rule reads. */
  type OpaqueType = t: string | t !in ModelledTypes witness "EmptyStatement"

  datatype Node =
    | Program(body: seq<Node>)
    | BlockStatement(body: seq<Node>)
    | StaticBlock(body: seq<Node>)
    | IfStatement(test: Node, consequent: Node, alternate: Option<Node>)
      /** `param` is the binding pattern (absent for `catch {}`); `body` holds
          the statements of the clause's block. */
    | CatchClause(param: Option<Node>, body: seq<Node>)
    | ThrowStatement(argument: Node)
      /** `cond ? whenTrue : whenFalse` */
    | ConditionalExpression(test: Node, whenTrue: Node, whenFalse: Node)
    | LogicalExpression(operator: string, left: Node, right: Node)
    | BinaryExpression(operator: string, left: Node, right: Node)
      /** `None` entries are the holes of `[a, , b]`. */
    | ArrayExpression(elements: seq<Option<Node>>)
    | ObjectExpression(properties: seq<Node>)
    | Property(key: Node, value: Node)
    | SpreadElement(argument: Node)
    | TemplateLiteral(expressions: seq<Node>)
    | CallExpression(callee: Node, arguments: seq<Node>)
    | Identifier(name: string)
    | Literal(raw: string)
    | Opaque(kind: OpaqueType)

  /** The node's ESTree `type` string. */
  function Type(n: Node): (t: string)
    ensures n.Opaque? <==> t !in ModelledTypes
    ensures n.IfStatement? <==> t == "IfStatement"
    ensures n.CatchClause? <==> t == "CatchClause"
    ensures n.Program? <==> t == "Program"
    ensures n.BlockStatement? <==> t == "BlockStatement"
  {
    match n
    case Program(_) => "Program"
    case BlockStatement(_) => "BlockStatement"
    case StaticBlock(_) => "StaticBlock"
    case IfStatement(_, _, _) => "IfStatement"
    case CatchClause(_, _) => "CatchClause"
    case ThrowStatement(_) => "ThrowStatement"
    case ConditionalExpression(_, _, _) => "ConditionalExpression"
    case LogicalExpression(_, _, _) => "LogicalExpression"
    case BinaryExpression(_, _, _) => "BinaryExpression"
    case ArrayExpression(_) => "ArrayExpression"
    case ObjectExpression(_) => "ObjectExpression"
    case Property(_, _) => "Property"
    case SpreadElement(_) => "SpreadElement"
    case TemplateLiteral(_) => "TemplateLiteral"
    case CallExpression(_, _) => "CallExpression"
    case Identifier(_) => "Identifier"
    case Literal(_) => "Literal"
    case Opaque(t) => t
  }

  function Last<T>(s: seq<T>): T
    requires |s| > 0
  {
    s[|s| - 1]
  }

  function Front<T>(s: seq<T>): seq<T>
    requires |s| > 0
  {
    s[..|s| - 1]
  }
}
