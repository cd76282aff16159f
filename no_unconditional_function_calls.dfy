/**
  The argument taint classifier of lib/no-unconditional-function-calls.js.

  `checkNode` looks through array elements, object property values,
  template interpolations and the operands of logical and binary
  expressions for the first conditional value (a ternary or a `??`, `||`,
  `&&` expression) and returns it; JavaScript's falsy results (`false`,
  `undefined`, `null`) are all `None` here. The `CallExpression` handler
  reports, argument by argument, the node `checkNode` returns.
 */
module NoUnconditionalFunctionCalls {
  import opened Estree

  const ConditionalOperators: seq<string> := ["??", "||", "&&"]

  // ---------------------------------------------------------------------
  // findWithPredicate
  // ---------------------------------------------------------------------

  /** Position `i` is the first whose predicate result is truthy. */
  ghost predicate FirstHit<T, R>(s: seq<T>, f: T --> Option<R>, i: int)
    requires forall k :: 0 <= k < |s| ==> f.requires(s[k])
  {
    && 0 <= i < |s|
    && f(s[i]).Some?
    && forall j :: 0 <= j < i ==> f(s[j]).None?
  }

  /** The value `findWithPredicate` returns: the first truthy predicate result, scanning left to right. */
  function FirstSome<T, R>(s: seq<T>, f: T --> Option<R>): (r: Option<R>)
    requires forall k :: 0 <= k < |s| ==> f.requires(s[k])
    ensures r.None? <==> forall k :: 0 <= k < |s| ==> f(s[k]).None?
    ensures forall i :: FirstHit(s, f, i) ==> r == f(s[i])
    decreases |s|
  {
    if s == [] then None
    else if f(s[0]).Some? then f(s[0])
    else
      assert forall i :: FirstHit(s, f, i) ==> i > 0 && FirstHit(s[1..], f, i - 1);
      FirstSome(s[1..], f)
  }

  /** `findWithPredicate`: an indexed scan that returns at the first truthy result. */
  method FindWithPredicate<T, R>(arr: seq<T>, test: T --> Option<R>) returns (r: Option<R>)
    requires forall k :: 0 <= k < |arr| ==> test.requires(arr[k])
    ensures r == FirstSome(arr, test)
    ensures r.Some? ==> exists i :: FirstHit(arr, test, i) && r == test(arr[i])
  {
    var i := 0;
    while i < |arr|
      invariant 0 <= i <= |arr|
      invariant forall j :: 0 <= j < i ==> test(arr[j]).None?
    {
      var result := test(arr[i]);
      if result.Some? {
        assert FirstHit(arr, test, i);
        return result;
      }
      i := i + 1;
    }
    return None;
  }

  // ---------------------------------------------------------------------
  // isConditionalExpression and checkNode
  // ---------------------------------------------------------------------

  /** A ternary, or a logical expression with one of the three short-circuit operators. */
  predicate IsConditionalExpression(n: Node)
    ensures n.ConditionalExpression? ==> IsConditionalExpression(n)
    ensures IsConditionalExpression(n) ==> n.ConditionalExpression? || n.LogicalExpression?
    ensures n.LogicalExpression? ==> (IsConditionalExpression(n) <==> n.operator in ConditionalOperators)
  {
    n.ConditionalExpression? || (n.LogicalExpression? && n.operator in ConditionalOperators)
  }

  /**
    `checkNode`. An identifier resolves through the scope to its
    initializer, which is then handed to `findWithPredicate` without a
    predicate: a node has no `length`, so the scan never starts and the
    answer is `undefined` whatever the scope holds.
   */
  function CheckNode(n: Node): (r: Option<Node>)
    ensures n.Identifier? || n.CallExpression? || n.Literal? || n.SpreadElement? ==> r.None?
    decreases n
  {
    if IsConditionalExpression(n) then Some(n)
    else
      match n
      case ArrayExpression(es) =>
        FirstSome(es, (e: Option<Node>) requires e in es => if e.None? then None else CheckNode(e.value))
      case ObjectExpression(ps) =>
        FirstSome(ps, (p: Node) requires p in ps => if p.Property? then CheckNode(p.value) else None)
      case LogicalExpression(_, left, right) =>
        var l := CheckNode(left); if l.Some? then l else CheckNode(right)
      case BinaryExpression(_, left, right) =>
        var l := CheckNode(left); if l.Some? then l else CheckNode(right)
      case TemplateLiteral(xs) =>
        FirstSome(xs, (x: Node) requires x in xs => CheckNode(x))
      case _ => None
  }

  // ---------------------------------------------------------------------
  // What checkNode finds
  // ---------------------------------------------------------------------

  /**
    `m` is a conditional that `n` exposes: `n` itself when it is one, and
    otherwise one reached through an array element, an object property's
    value, a template interpolation or a logical or binary operand.
    Identifiers, calls and every other kind expose nothing.
   */
  ghost predicate Exposes(n: Node, m: Node)
    decreases n
  {
    if IsConditionalExpression(n) then m == n
    else
      match n
      case ArrayExpression(es) => exists i :: 0 <= i < |es| && es[i].Some? && Exposes(es[i].value, m)
      case ObjectExpression(ps) => exists i :: 0 <= i < |ps| && ps[i].Property? && Exposes(ps[i].value, m)
      case LogicalExpression(_, left, right) => Exposes(left, m) || Exposes(right, m)
      case BinaryExpression(_, left, right) => Exposes(left, m) || Exposes(right, m)
      case TemplateLiteral(xs) => exists i :: 0 <= i < |xs| && Exposes(xs[i], m)
      case _ => false
  }

  /** Everything exposed is a conditional. */
  lemma {:induction false} ExposedIsConditional(n: Node, m: Node)
    requires Exposes(n, m)
    ensures IsConditionalExpression(m)
    decreases n
  {
    if !IsConditionalExpression(n) {
      match n
      case ArrayExpression(es) =>
        var i :| 0 <= i < |es| && es[i].Some? && Exposes(es[i].value, m);
        ExposedIsConditional(es[i].value, m);
      case ObjectExpression(ps) =>
        var i :| 0 <= i < |ps| && ps[i].Property? && Exposes(ps[i].value, m);
        ExposedIsConditional(ps[i].value, m);
      case LogicalExpression(_, left, right) =>
        if Exposes(left, m) { ExposedIsConditional(left, m); } else { ExposedIsConditional(right, m); }
      case BinaryExpression(_, left, right) =>
        if Exposes(left, m) { ExposedIsConditional(left, m); } else { ExposedIsConditional(right, m); }
      case TemplateLiteral(xs) =>
        var i :| 0 <= i < |xs| && Exposes(xs[i], m);
        ExposedIsConditional(xs[i], m);
    }
  }

  /** `checkNode` returns only a conditional that the node exposes. */
  lemma {:induction false} CheckNodeSound(n: Node)
    ensures CheckNode(n).Some? ==> Exposes(n, CheckNode(n).value)
    decreases n
  {
    var r := CheckNode(n);
    if r.Some? && !IsConditionalExpression(n) {
      match n
      case ArrayExpression(es) =>
        var f := (e: Option<Node>) requires e in es => if e.None? then None else CheckNode(e.value);
        var i := FirstHitOf(es, f);
        CheckNodeSound(es[i].value);
      case ObjectExpression(ps) =>
        var f := (p: Node) requires p in ps => if p.Property? then CheckNode(p.value) else None;
        var i := FirstHitOf(ps, f);
        CheckNodeSound(ps[i].value);
      case LogicalExpression(_, left, right) =>
        CheckNodeSound(left);
        CheckNodeSound(right);
      case BinaryExpression(_, left, right) =>
        CheckNodeSound(left);
        CheckNodeSound(right);
      case TemplateLiteral(xs) =>
        var f := (x: Node) requires x in xs => CheckNode(x);
        var i := FirstHitOf(xs, f);
        CheckNodeSound(xs[i]);
    }
  }

  /** `checkNode` finds something whenever the node exposes a conditional. */
  lemma {:induction false} CheckNodeComplete(n: Node, m: Node)
    requires Exposes(n, m)
    ensures CheckNode(n).Some?
    decreases n
  {
    if !IsConditionalExpression(n) {
      match n
      case ArrayExpression(es) =>
        var i :| 0 <= i < |es| && es[i].Some? && Exposes(es[i].value, m);
        CheckNodeComplete(es[i].value, m);
        assert es[i] in es;
      case ObjectExpression(ps) =>
        var i :| 0 <= i < |ps| && ps[i].Property? && Exposes(ps[i].value, m);
        CheckNodeComplete(ps[i].value, m);
        assert ps[i] in ps;
      case LogicalExpression(_, left, right) =>
        if Exposes(left, m) { CheckNodeComplete(left, m); } else { CheckNodeComplete(right, m); }
      case BinaryExpression(_, left, right) =>
        if Exposes(left, m) { CheckNodeComplete(left, m); } else { CheckNodeComplete(right, m); }
      case TemplateLiteral(xs) =>
        var i :| 0 <= i < |xs| && Exposes(xs[i], m);
        CheckNodeComplete(xs[i], m);
        assert xs[i] in xs;
    }
  }

  /** The first hit of a search that found something. */
  lemma FirstHitOf<T, R>(s: seq<T>, f: T --> Option<R>) returns (i: int)
    requires forall k :: 0 <= k < |s| ==> f.requires(s[k])
    requires FirstSome(s, f).Some?
    ensures FirstHit(s, f, i) && FirstSome(s, f) == f(s[i])
  {
    i := 0;
    while f(s[i]).None?
      invariant 0 <= i < |s|
      invariant forall j :: 0 <= j < i ==> f(s[j]).None?
      decreases |s| - i
    {
      if i + 1 == |s| {
        assert forall k :: 0 <= k < |s| ==> f(s[k]).None?;
        assert false;
      }
      i := i + 1;
    }
  }

  /** `checkNode` is truthy exactly when the node exposes a conditional, and then returns one. */
  lemma CheckNodeIff(n: Node)
    ensures CheckNode(n).Some? <==> exists m :: Exposes(n, m)
    ensures CheckNode(n).Some? ==> Exposes(n, CheckNode(n).value) && IsConditionalExpression(CheckNode(n).value)
  {
    CheckNodeSound(n);
    if CheckNode(n).Some? {
      var m := CheckNode(n).value;
      assert Exposes(n, m);
      ExposedIsConditional(n, m);
    }
    if exists m :: Exposes(n, m) {
      var m :| Exposes(n, m);
      CheckNodeComplete(n, m);
    }
  }

  /** What `checkNode` returns is a conditional. */
  lemma CheckNodeIsConditional(n: Node)
    ensures CheckNode(n).Some? ==> IsConditionalExpression(CheckNode(n).value)
  {
    CheckNodeIff(n);
  }

  /** An array yields nothing iff no element (holes skipped) offends. */
  lemma ArrayYieldsNothingIffClean(es: seq<Option<Node>>)
    ensures CheckNode(ArrayExpression(es)).None? <==>
      forall j :: 0 <= j < |es| ==> es[j].None? || CheckNode(es[j].value).None?
  {
    var f := (e: Option<Node>) requires e in es => if e.None? then None else CheckNode(e.value);
    assert CheckNode(ArrayExpression(es)) == FirstSome(es, f);
  }

  /** An array yields the result of its first offending element. */
  lemma ArrayYieldsFirstOffending(es: seq<Option<Node>>, i: nat)
    requires i < |es| && es[i].Some? && CheckNode(es[i].value).Some?
    requires forall j :: 0 <= j < i ==> es[j].None? || CheckNode(es[j].value).None?
    ensures CheckNode(ArrayExpression(es)) == CheckNode(es[i].value)
  {
    var f := (e: Option<Node>) requires e in es => if e.None? then None else CheckNode(e.value);
    assert CheckNode(ArrayExpression(es)) == FirstSome(es, f);
    assert FirstHit(es, f, i);
  }

  /** An object yields nothing iff no property's value offends; spread entries count as nothing. */
  lemma ObjectYieldsNothingIffClean(ps: seq<Node>)
    ensures CheckNode(ObjectExpression(ps)).None? <==>
      forall j :: 0 <= j < |ps| ==> !ps[j].Property? || CheckNode(ps[j].value).None?
  {
    var f := (p: Node) requires p in ps => if p.Property? then CheckNode(p.value) else None;
    assert CheckNode(ObjectExpression(ps)) == FirstSome(ps, f);
  }

  /** An object yields the value check of its first property whose value offends. */
  lemma ObjectYieldsFirstOffending(ps: seq<Node>, i: nat)
    requires i < |ps| && ps[i].Property? && CheckNode(ps[i].value).Some?
    requires forall j :: 0 <= j < i ==> !ps[j].Property? || CheckNode(ps[j].value).None?
    ensures CheckNode(ObjectExpression(ps)) == CheckNode(ps[i].value)
  {
    var f := (p: Node) requires p in ps => if p.Property? then CheckNode(p.value) else None;
    assert CheckNode(ObjectExpression(ps)) == FirstSome(ps, f);
    assert FirstHit(ps, f, i);
  }

  /** A template literal yields nothing iff none of its interpolated expressions offends. */
  lemma TemplateYieldsNothingIffClean(xs: seq<Node>)
    ensures CheckNode(TemplateLiteral(xs)).None? <==> forall j :: 0 <= j < |xs| ==> CheckNode(xs[j]).None?
  {
    var f := (x: Node) requires x in xs => CheckNode(x);
    assert CheckNode(TemplateLiteral(xs)) == FirstSome(xs, f);
  }

  /** A template literal yields its first offending interpolated expression. */
  lemma TemplateYieldsFirstOffending(xs: seq<Node>, i: nat)
    requires i < |xs| && CheckNode(xs[i]).Some?
    requires forall j :: 0 <= j < i ==> CheckNode(xs[j]).None?
    ensures CheckNode(TemplateLiteral(xs)) == CheckNode(xs[i])
  {
    var f := (x: Node) requires x in xs => CheckNode(x);
    assert CheckNode(TemplateLiteral(xs)) == FirstSome(xs, f);
    assert FirstHit(xs, f, i);
  }

  /** Operands of a binary expression (and of a logical one with another operator) are checked left first. */
  lemma BinaryChecksLeftFirst(operator: string, left: Node, right: Node)
    ensures CheckNode(left).Some? ==> CheckNode(BinaryExpression(operator, left, right)) == CheckNode(left)
    ensures CheckNode(left).None? ==> CheckNode(BinaryExpression(operator, left, right)) == CheckNode(right)
  {
  }

  /** The four conditional forms are their own offending node, whatever they contain. */
  lemma ConditionalIsItsOwnOffender(n: Node)
    requires n.ConditionalExpression? || (n.LogicalExpression? && n.operator in {"??", "||", "&&"})
    ensures CheckNode(n) == Some(n)
  {
  }

  /** Identifiers, calls, literals and spreads never yield anything. */
  lemma OpaqueToTaint(n: Node)
    requires n.Identifier? || n.CallExpression? || n.Literal? || n.SpreadElement?
    ensures CheckNode(n).None?
    ensures forall m :: !Exposes(n, m)
  {
  }

  // ---------------------------------------------------------------------
  // The CallExpression handler
  // ---------------------------------------------------------------------

  /** The nodes reported for a call's arguments, in argument order. */
  function CallReports(args: seq<Node>): (r: seq<Node>)
    ensures |r| <= |args|
    ensures forall m :: m in r ==> IsConditionalExpression(m)
    decreases |args|
  {
    if args == [] then []
    else
      var last := CheckNode(Last(args));
      CheckNodeIsConditional(Last(args));
      CallReports(Front(args)) + (if last.Some? then [last.value] else [])
  }

  /** The reports of two argument lists are the reports of each, in order. */
  lemma {:induction false} CallReportsAppend(a: seq<Node>, b: seq<Node>)
    ensures CallReports(a + b) == CallReports(a) + CallReports(b)
    decreases |b|
  {
    if b == [] {
      assert a + b == a;
    } else {
      assert Front(a + b) == a + Front(b);
      assert Last(a + b) == Last(b);
      CallReportsAppend(a, Front(b));
    }
  }

  /** One argument is reported iff it exposes a conditional, and then at what `checkNode` returns. */
  lemma SingleArgumentReport(arg: Node)
    ensures CallReports([arg]) == (if CheckNode(arg).Some? then [CheckNode(arg).value] else [])
    ensures CallReports([arg]) != [] <==> exists m :: Exposes(arg, m)
  {
    assert Front([arg]) == [];
    CheckNodeIff(arg);
  }

  /** A call reports nothing iff none of its arguments exposes a conditional. */
  lemma {:induction false} NoReportsIffClean(args: seq<Node>)
    ensures CallReports(args) == [] <==> forall i :: 0 <= i < |args| ==> CheckNode(args[i]).None?
    decreases |args|
  {
    if args != [] {
      var front := Front(args);
      NoReportsIffClean(front);
      CallReportsEmptyStep(args);
      if CallReports(args) == [] {
        forall i | 0 <= i < |args| ensures CheckNode(args[i]).None? {
          if i < |front| { assert front[i] == args[i]; }
        }
      } else if CallReports(front) != [] {
        var i :| 0 <= i < |front| && CheckNode(front[i]).Some?;
        assert args[i] == front[i];
      } else {
        assert CheckNode(args[|args| - 1]).Some?;
      }
    }
  }

  lemma CallReportsEmptyStep(args: seq<Node>)
    requires args != []
    ensures CallReports(args) == [] <==> CallReports(Front(args)) == [] && CheckNode(Last(args)).None?
  {
  }

  /** The handler: one report per argument whose check is truthy, at the returned node. */
  method OnCallExpression(call: Node) returns (reports: seq<Node>)
    requires call.CallExpression?
    ensures reports == CallReports(call.arguments)
    ensures forall m :: m in reports ==> m != call && IsConditionalExpression(m)
  {
    var args := call.arguments;
    reports := [];
    var i := 0;
    while i < |args|
      invariant 0 <= i <= |args|
      invariant reports == CallReports(args[..i])
    {
      var conditional := CheckNode(args[i]);
      assert Front(args[..i + 1]) == args[..i] && Last(args[..i + 1]) == args[i];
      if conditional.Some? {
        reports := reports + [conditional.value];
      }
      i := i + 1;
    }
    assert args[..i] == args;
  }

  // ---------------------------------------------------------------------
  // The cases of lib/no-unconditional-function-calls.test.js
  // ---------------------------------------------------------------------

  /** `doSomething(value)` with `const value = condition ? 'yes' : 'no'` reports nothing. */
  lemma TernaryVariableNotReported()
    ensures CallReports([Identifier("value")]) == []
  {
    assert Front([Identifier("value")]) == [];
  }

  /** `doSomething('static string')` and `doSomething(123)` report nothing. */
  lemma LiteralNotReported(raw: string)
    ensures CallReports([Literal(raw)]) == []
  {
    SingleArgumentReport(Literal(raw));
  }

  /** `doSomething({ prop: 'value' })` reports nothing. */
  lemma PlainObjectNotReported()
    ensures CallReports([ObjectExpression([Property(Identifier("prop"), Literal("'value'"))])]) == []
  {
    ObjectYieldsNothingIffClean([Property(Identifier("prop"), Literal("'value'"))]);
    SingleArgumentReport(ObjectExpression([Property(Identifier("prop"), Literal("'value'"))]));
  }

  /** `doSomething([1, 2, 3])`: an array of literals reports nothing. */
  lemma PlainArrayNotReported(x: string, y: string, z: string)
    ensures CallReports([ArrayExpression([Some(Literal(x)), Some(Literal(y)), Some(Literal(z))])]) == []
  {
    var es := [Some(Literal(x)), Some(Literal(y)), Some(Literal(z))];
    ArrayYieldsNothingIffClean(es);
    assert CheckNode(ArrayExpression(es)).None?;
    SingleArgumentReport(ArrayExpression(es));
  }

  /** `doSomething(`template string`)` and `doSomething(nestedCall())` report nothing. */
  lemma TemplateAndNestedCallNotReported()
    ensures CallReports([TemplateLiteral([])]) == []
    ensures CallReports([CallExpression(Identifier("nestedCall"), [])]) == []
  {
    SingleArgumentReport(TemplateLiteral([]));
    SingleArgumentReport(CallExpression(Identifier("nestedCall"), []));
  }

  /** `doSomething({ prop: c })` reports `c` when `c` is a ternary. */
  lemma TernaryInObjectReported(c: Node)
    requires c.ConditionalExpression?
    ensures CallReports([ObjectExpression([Property(Identifier("prop"), c)])]) == [c]
  {
    ObjectYieldsFirstOffending([Property(Identifier("prop"), c)], 0);
    SingleArgumentReport(ObjectExpression([Property(Identifier("prop"), c)]));
  }

  /** `doSomething([1, 2, c])` reports `c` when `c` is a ternary. */
  lemma TernaryInArrayReported(c: Node)
    requires c.ConditionalExpression?
    ensures CallReports([ArrayExpression([Some(Literal("1")), Some(Literal("2")), Some(c)])]) == [c]
  {
    var es := [Some(Literal("1")), Some(Literal("2")), Some(c)];
    assert CheckNode(Literal("1")).None? && CheckNode(Literal("2")).None?;
    ArrayYieldsFirstOffending(es, 2);
    SingleArgumentReport(ArrayExpression(es));
  }

  /** `doSomething(`Value: ${c}`)` reports `c` when `c` is a ternary. */
  lemma TernaryInTemplateReported(c: Node)
    requires c.ConditionalExpression?
    ensures CallReports([TemplateLiteral([c])]) == [c]
  {
    TemplateYieldsFirstOffending([c], 0);
    SingleArgumentReport(TemplateLiteral([c]));
  }
}
