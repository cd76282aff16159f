/**
  The rule of lib/complex-objects.js: a property of an object literal whose
  value text spans more than five lines is reported, with a fix that hoists
  the value into a `const` declared before the enclosing top statement and
  puts the key name in its place.

  The source text of a node is what `getText` returns for it, a parameter
  of the handler; the fix is the pair of text edits the fixer is asked for.
 */
module ComplexObjects {
  import opened Estree

  const MaxLines := 5

  const Message := "Object value should not be longer than 5 lines."

  // ---------------------------------------------------------------------
  // String.prototype.trim
  // ---------------------------------------------------------------------

  /** The characters `String.prototype.trim` removes: white space and line terminators. */
  predicate IsWhitespace(c: char)
  {
    var u := c as int;
    || u == 0x09 || u == 0x0A || u == 0x0B || u == 0x0C || u == 0x0D || u == 0x20
    || u == 0xA0 || u == 0x1680 || (0x2000 <= u <= 0x200A) || u == 0x2028 || u == 0x2029
    || u == 0x202F || u == 0x205F || u == 0x3000 || u == 0xFEFF
  }

  /** `s` without its leading white space. */
  function TrimStart(s: string): (r: string)
    ensures |r| <= |s| && r == s[|s| - |r|..]
    ensures forall k :: 0 <= k < |s| - |r| ==> IsWhitespace(s[k])
    ensures r != [] ==> !IsWhitespace(r[0])
    decreases |s|
  {
    if s != [] && IsWhitespace(s[0]) then TrimStart(s[1..]) else s
  }

  /** `s` without its trailing white space. */
  function TrimEnd(s: string): (r: string)
    ensures |r| <= |s| && r == s[..|r|]
    ensures forall k :: |r| <= k < |s| ==> IsWhitespace(s[k])
    ensures r != [] ==> !IsWhitespace(Last(r))
    decreases |s|
  {
    if s != [] && IsWhitespace(Last(s)) then TrimEnd(Front(s)) else s
  }

  /** `String.prototype.trim`: no longer than `s`, and neither end is white space. */
  function Trim(s: string): (r: string)
    ensures |r| <= |s|
    ensures r != [] ==> !IsWhitespace(r[0]) && !IsWhitespace(Last(r))
  {
    TrimEnd(TrimStart(s))
  }

  /** `s[i..j]` is what is left between two white-space margins of `s`. */
  ghost predicate BetweenMargins(s: string, i: int, j: int)
  {
    && 0 <= i <= j <= |s|
    && (forall k :: 0 <= k < i ==> IsWhitespace(s[k]))
    && (forall k :: j <= k < |s| ==> IsWhitespace(s[k]))
  }

  /** The trimmed text is the slice of `s` between white-space margins, and starts and ends with a non-space. */
  lemma TrimIsInnerSlice(s: string)
    ensures exists i, j :: BetweenMargins(s, i, j) && Trim(s) == s[i..j]
    ensures Trim(s) != [] ==> !IsWhitespace(Trim(s)[0]) && !IsWhitespace(Last(Trim(s)))
  {
    var t := TrimStart(s);
    var i := |s| - |t|;
    var j := i + |Trim(s)|;
    TrimEndMargin(s, i, t);
    assert BetweenMargins(s, i, j);
  }

  lemma TrimEndMargin(s: string, i: int, t: string)
    requires 0 <= i <= |s| && t == s[i..]
    ensures var j := i + |TrimEnd(t)|;
      && TrimEnd(t) == s[i..j]
      && forall k :: j <= k < |s| ==> IsWhitespace(s[k])
  {
    var u := TrimEnd(t);
    forall k | i + |u| <= k < |s| ensures IsWhitespace(s[k]) {
      assert s[k] == t[k - i];
    }
  }

  /** Trimming twice is trimming once. */
  lemma TrimIdempotent(s: string)
    ensures Trim(Trim(s)) == Trim(s)
  {
    var t := Trim(s);
    if t != [] {
      assert !IsWhitespace(t[0]) && !IsWhitespace(Last(t));
      assert TrimStart(t) == t;
      assert TrimEnd(t) == t;
    }
  }

  // ---------------------------------------------------------------------
  // split(/\r\n|\r|\n/g)
  // ---------------------------------------------------------------------

  predicate IsLineBreak(c: char)
  {
    c == '\r' || c == '\n'
  }

  /** The separator the pattern matches at the start of `s`, if any: `\r\n` is tried first. */
  function BreakAt(s: string): (r: string)
    ensures r == "" || r == "\r\n" || r == "\r" || r == "\n"
    ensures |r| <= |s| && r == s[..|r|]
    ensures |s| >= 2 && s[0] == '\r' && s[1] == '\n' ==> r == "\r\n"
    ensures r == "" <==> s == [] || !IsLineBreak(s[0])
  {
    if |s| >= 2 && s[0] == '\r' && s[1] == '\n' then "\r\n"
    else if s != [] && IsLineBreak(s[0]) then s[..1]
    else ""
  }

  /** The pieces `split(/\r\n|\r|\n/g)` returns: never empty, `[""]` for the empty string. */
  function SplitLines(s: string): (r: seq<string>)
    ensures |r| >= 1
    decreases |s|
  {
    if s == [] then [""]
    else
      var sep := BreakAt(s);
      if sep != "" then [""] + SplitLines(s[|sep|..])
      else
        var rest := SplitLines(s[1..]);
        [[s[0]] + rest[0]] + rest[1..]
  }

  /** The separators matched, in order. */
  function LineBreaks(s: string): (r: seq<string>)
    decreases |s|
  {
    if s == [] then []
    else
      var sep := BreakAt(s);
      if sep != "" then [sep] + LineBreaks(s[|sep|..]) else LineBreaks(s[1..])
  }

  /** The pieces joined back with the separators between them. */
  function JoinLines(pieces: seq<string>, seps: seq<string>): string
    requires |pieces| == |seps| + 1
    decreases |seps|
  {
    if seps == [] then pieces[0] else pieces[0] + seps[0] + JoinLines(pieces[1..], seps[1..])
  }

  /** One piece more than separators, and every separator is one of the three the pattern matches. */
  lemma {:induction false} SplitLinesShape(s: string)
    ensures |SplitLines(s)| == |LineBreaks(s)| + 1
    ensures forall k :: 0 <= k < |LineBreaks(s)| ==> LineBreaks(s)[k] in {"\r\n", "\r", "\n"}
    decreases |s|
  {
    if s != [] {
      var sep := BreakAt(s);
      if sep != "" {
        SplitLinesShape(s[|sep|..]);
      } else {
        SplitLinesShape(s[1..]);
      }
    }
  }

  /** No piece holds a line break. */
  lemma {:induction false} PiecesHaveNoBreaks(s: string)
    ensures forall p, k :: p in SplitLines(s) && 0 <= k < |p| ==> !IsLineBreak(p[k])
    decreases |s|
  {
    if s != [] {
      var sep := BreakAt(s);
      if sep != "" {
        PiecesHaveNoBreaks(s[|sep|..]);
      } else {
        var rest := SplitLines(s[1..]);
        PiecesHaveNoBreaks(s[1..]);
        forall p, k | p in SplitLines(s) && 0 <= k < |p| ensures !IsLineBreak(p[k]) {
          if p != [s[0]] + rest[0] {
            assert p in rest[1..];
          } else if k > 0 {
            assert p[k] == rest[0][k - 1];
          }
        }
      }
    }
  }

  /** Splitting loses nothing: the separators put the pieces back together. */
  lemma {:induction false} SplitLinesRoundTrip(s: string)
    ensures |SplitLines(s)| == |LineBreaks(s)| + 1
    ensures JoinLines(SplitLines(s), LineBreaks(s)) == s
    decreases |s|
  {
    SplitLinesShape(s);
    if s != [] {
      var sep := BreakAt(s);
      if sep != "" {
        var tail := s[|sep|..];
        SplitLinesRoundTrip(tail);
        JoinAfterBreak(sep, SplitLines(tail), LineBreaks(tail));
        assert s == sep + tail;
      } else {
        var tail := s[1..];
        SplitLinesRoundTrip(tail);
        JoinFirstPiece(s[0], SplitLines(tail), LineBreaks(tail));
        assert s == [s[0]] + tail;
      }
    }
  }

  lemma JoinAfterBreak(sep: string, pieces: seq<string>, seps: seq<string>)
    requires |pieces| == |seps| + 1
    ensures JoinLines([""] + pieces, [sep] + seps) == sep + JoinLines(pieces, seps)
  {
    var withEmpty, withSep := [[]] + pieces, [sep] + seps;
    assert withEmpty[0] == [] && withEmpty[1..] == pieces;
    assert withSep[0] == sep && withSep[1..] == seps;
    assert JoinLines(withEmpty, withSep) == [] + sep + JoinLines(pieces, seps);
    assert [] + sep == sep;
  }

  lemma JoinFirstPiece(c: char, pieces: seq<string>, seps: seq<string>)
    requires |pieces| == |seps| + 1
    ensures JoinLines([[c] + pieces[0]] + pieces[1..], seps) == [c] + JoinLines(pieces, seps)
  {
    var joined := [[c] + pieces[0]] + pieces[1..];
    assert joined[1..] == pieces[1..];
  }

  /** The number of `\n` characters plus the number of `\r` characters not followed by `\n`. */
  function CountBreaks(s: string): nat
    decreases |s|
  {
    if s == [] then 0
    else (if s[0] == '\n' || (s[0] == '\r' && (|s| == 1 || s[1] != '\n')) then 1 else 0) + CountBreaks(s[1..])
  }

  /** `\r\n` separates two pieces, not three: the piece count is one more than `CountBreaks`. */
  lemma {:induction false} PieceCount(s: string)
    ensures |SplitLines(s)| == CountBreaks(s) + 1
    decreases |s|
  {
    if s != [] {
      if |s| >= 2 && s[0] == '\r' && s[1] == '\n' {
        PieceCount(s[2..]);
        assert s[1..][1..] == s[2..];
        assert CountBreaks(s) == CountBreaks(s[1..]) == 1 + CountBreaks(s[2..]);
      } else {
        PieceCount(s[1..]);
      }
    }
  }

  /** The line count the rule compares with 5: one more than the line breaks of the trimmed text. */
  function LineCount(text: string): (r: nat)
    ensures r == CountBreaks(Trim(text)) + 1
  {
    PieceCount(Trim(text));
    |SplitLines(Trim(text))|
  }

  predicate TooLong(text: string)
  {
    LineCount(text) > MaxLines
  }

  /** A value is too long iff its trimmed text holds more than four line breaks (`\r\n` counted once). */
  lemma TooLongIffBreaks(text: string)
    ensures TooLong(text) <==> CountBreaks(Trim(text)) >= MaxLines
  {
    PieceCount(Trim(text));
  }

  // ---------------------------------------------------------------------
  // The fix
  // ---------------------------------------------------------------------

  /** `property.key.name` as a template and `replaceText` stringify it: a non-identifier key has no name. */
  function KeyName(key: Node): (r: string)
    ensures key.Identifier? ==> r == key.name
    ensures !key.Identifier? ==> r == "undefined"
  {
    if key.Identifier? then key.name else "undefined"
  }

  predicate IsStop(n: Node)
  {
    Type(n) == "Program" || Type(n) == "BlockStatement"
  }

  /**
    The walk of the fix: starting at the object, go up while the parent is
    neither a `Program` nor a `BlockStatement`. Running out of ancestors is
    reading `.type` of a `null` parent, a TypeError.
   */
  function TopStatement(node: Node, ancestors: seq<Node>): (r: Result<Node>)
    ensures r.Ok? ==> r.value == node || (r.value in ancestors && !IsStop(r.value))
    ensures ancestors != [] && IsStop(ancestors[0]) ==> r == Ok(node)
    decreases |ancestors|
  {
    if ancestors == [] then TypeError
    else if IsStop(ancestors[0]) then Ok(node)
    else TopStatement(ancestors[0], ancestors[1..])
  }

  /** Position `i` holds the nearest `Program` or `BlockStatement` ancestor. */
  ghost predicate FirstStop(ancestors: seq<Node>, i: int)
  {
    && 0 <= i < |ancestors|
    && IsStop(ancestors[i])
    && forall j :: 0 <= j < i ==> !IsStop(ancestors[j])
  }

  /** The walk succeeds iff some ancestor is a `Program` or a `BlockStatement`. */
  lemma {:induction false} TopStatementOkIffStop(node: Node, ancestors: seq<Node>)
    ensures TopStatement(node, ancestors).Ok? <==> exists i :: 0 <= i < |ancestors| && IsStop(ancestors[i])
    decreases |ancestors|
  {
    if ancestors != [] && !IsStop(ancestors[0]) {
      var tail := ancestors[1..];
      TopStatementOkIffStop(ancestors[0], tail);
      if exists i :: 0 <= i < |ancestors| && IsStop(ancestors[i]) {
        var i :| 0 <= i < |ancestors| && IsStop(ancestors[i]);
        assert IsStop(tail[i - 1]);
      }
      if exists i :: 0 <= i < |tail| && IsStop(tail[i]) {
        var i :| 0 <= i < |tail| && IsStop(tail[i]);
        assert IsStop(ancestors[i + 1]);
      }
    }
  }

  /** The top is the node just below the nearest `Program` or `BlockStatement` ancestor. */
  lemma {:induction false} TopStatementIsBelowFirstStop(node: Node, ancestors: seq<Node>, i: int)
    requires FirstStop(ancestors, i)
    ensures TopStatement(node, ancestors) == Ok(if i == 0 then node else ancestors[i - 1])
    decreases |ancestors|
  {
    if i > 0 {
      var tail := ancestors[1..];
      assert !IsStop(ancestors[0]);
      assert FirstStop(tail, i - 1) by {
        assert tail[i - 1] == ancestors[i];
        forall j | 0 <= j < i - 1 ensures !IsStop(tail[j]) { assert tail[j] == ancestors[j + 1]; }
      }
      TopStatementIsBelowFirstStop(ancestors[0], tail, i - 1);
      assert (if i - 1 == 0 then ancestors[0] else tail[i - 2]) == ancestors[i - 1];
    }
  }

  /** The `while` loop of the fix, reassigning `top` until its parent is a statement list's owner. */
  method FindTop(node: Node, ancestors: seq<Node>) returns (r: Result<Node>)
    ensures r == TopStatement(node, ancestors)
  {
    var top := node;
    var i := 0;
    while i < |ancestors| && !IsStop(ancestors[i])
      invariant 0 <= i <= |ancestors|
      invariant TopStatement(node, ancestors) == TopStatement(top, ancestors[i..])
    {
      top := ancestors[i];
      i := i + 1;
    }
    if i == |ancestors| {
      return TypeError;
    }
    return Ok(top);
  }

  /** The declaration the fix inserts: `const <name> = <text>;` and a newline. */
  function Declaration(name: string, text: string): string
  {
    "const " + name + " = " + text + ";\n"
  }

  /** A text edit of the fixer. */
  datatype Edit = InsertTextBefore(target: Node, text: string) | ReplaceText(target: Node, text: string)

  /** The two edits of the fix: declare the value before the top statement, then use the key name in its place. */
  function FixEdits(obj: Node, ancestors: seq<Node>, property: Node, text: string): (r: Result<seq<Edit>>)
    requires property.Property?
    ensures r.Ok? <==> TopStatement(obj, ancestors).Ok?
    ensures r.Ok? ==>
      && |r.value| == 2
      && r.value[0].InsertTextBefore? && r.value[0].target == TopStatement(obj, ancestors).value
      && r.value[1] == ReplaceText(property.value, KeyName(property.key))
      && r.value[0].text == Declaration(r.value[1].text, text)
  {
    FixFromTop(TopStatement(obj, ancestors), property, text)
  }

  /**
    The fixer once the walk has ended: the walk's TypeError propagates;
    otherwise the declaration goes before the top and the key replaces the value.
   */
  function FixFromTop(top: Result<Node>, property: Node, text: string): (r: Result<seq<Edit>>)
    requires property.Property?
    ensures r.Ok? <==> top.Ok?
    ensures r.Ok? ==>
      && |r.value| == 2
      && r.value[0] == InsertTextBefore(top.value, Declaration(KeyName(property.key), text))
      && r.value[1] == ReplaceText(property.value, KeyName(property.key))
  {
    match top
    case TypeError => TypeError
    case Ok(t) =>
      var name := KeyName(property.key);
      Ok([InsertTextBefore(t, Declaration(name, text)), ReplaceText(property.value, name)])
  }

  // ---------------------------------------------------------------------
  // The ObjectExpression handler
  // ---------------------------------------------------------------------

  /** A report: the property, the message and the fix. */
  datatype Finding = Finding(node: Node, message: string, fix: Result<seq<Edit>>)

  /** The finding for one entry of `properties`: one iff it is a `Property` with a long value. */
  function PropertyFinding(obj: Node, ancestors: seq<Node>, getText: Node -> string, property: Node): (r: seq<Finding>)
    ensures |r| <= 1
    ensures r != [] <==> property.Property? && TooLong(getText(property.value))
    ensures r != [] ==>
      && r[0].node == property && r[0].message == Message
      && r[0].fix == FixEdits(obj, ancestors, property, getText(property.value))
  {
    if property.Property? && TooLong(getText(property.value)) then
      [Finding(property, Message, FixEdits(obj, ancestors, property, getText(property.value)))]
    else []
  }

  /** The findings for `properties`, in order. */
  function ObjectFindings(obj: Node, ancestors: seq<Node>, getText: Node -> string, properties: seq<Node>): (r: seq<Finding>)
    ensures |r| <= |properties|
    ensures forall f :: f in r ==> (f.fix.Ok? <==> TopStatement(obj, ancestors).Ok?)
    decreases |properties|
  {
    if properties == [] then []
    else ObjectFindings(obj, ancestors, getText, Front(properties)) + PropertyFinding(obj, ancestors, getText, Last(properties))
  }

  /** Each reported property is a long-valued `Property` of the list, and each long-valued one is reported. */
  lemma {:induction false} FindingsAreLongProperties(obj: Node, ancestors: seq<Node>, getText: Node -> string, properties: seq<Node>)
    ensures forall f :: f in ObjectFindings(obj, ancestors, getText, properties) ==>
      f.node in properties && f.node.Property? && TooLong(getText(f.node.value)) && f.message == Message
    ensures forall p :: p in properties && p.Property? && TooLong(getText(p.value)) ==>
      exists f :: f in ObjectFindings(obj, ancestors, getText, properties) && f.node == p
    decreases |properties|
  {
    if properties != [] {
      var front := Front(properties);
      FindingsAreLongProperties(obj, ancestors, getText, front);
      assert properties == front + [Last(properties)];
      forall p | p in properties && p.Property? && TooLong(getText(p.value))
        ensures exists f :: f in ObjectFindings(obj, ancestors, getText, properties) && f.node == p
      {
        if p == Last(properties) {
          assert PropertyFinding(obj, ancestors, getText, p)[0].node == p;
        } else {
          assert p in front;
          var f :| f in ObjectFindings(obj, ancestors, getText, front) && f.node == p;
          assert f in ObjectFindings(obj, ancestors, getText, properties);
        }
      }
    }
  }

  /** The findings of a list are those of its parts, in order. */
  lemma {:induction false} ObjectFindingsAppend(obj: Node, ancestors: seq<Node>, getText: Node -> string, a: seq<Node>, b: seq<Node>)
    ensures ObjectFindings(obj, ancestors, getText, a + b) ==
      ObjectFindings(obj, ancestors, getText, a) + ObjectFindings(obj, ancestors, getText, b)
    decreases |b|
  {
    if b == [] {
      assert a + b == a;
    } else {
      assert Front(a + b) == a + Front(b);
      assert Last(a + b) == Last(b);
      ObjectFindingsAppend(obj, ancestors, getText, a, Front(b));
    }
  }

  /**
    What the `ObjectExpression` handler completes with. ESLint runs a
    report's fix inside `context.report`, so a fix that throws aborts the
    handler: the handler throws iff some finding's fix throws, and otherwise
    it reports every finding, each with its two edits.
   */
  function ObjectOutcome(obj: Node, ancestors: seq<Node>, getText: Node -> string): (r: Result<seq<Finding>>)
    requires obj.ObjectExpression?
    ensures r.TypeError? <==> exists f :: f in ObjectFindings(obj, ancestors, getText, obj.properties) && f.fix.TypeError?
    ensures r.Ok? ==> r.value == ObjectFindings(obj, ancestors, getText, obj.properties)
    ensures r.Ok? ==> forall f :: f in r.value ==> f.fix.Ok?
  {
    var findings := ObjectFindings(obj, ancestors, getText, obj.properties);
    if findings != [] && TopStatement(obj, ancestors).TypeError? then
      assert findings[0] in findings && !findings[0].fix.Ok?;
      TypeError
    else Ok(findings)
  }

  /** A reported property whose fix walk throws makes the whole handler throw. */
  lemma ThrowingFixAborts(obj: Node, ancestors: seq<Node>, getText: Node -> string, i: nat)
    requires obj.ObjectExpression? && i < |obj.properties|
    requires PropertyFinding(obj, ancestors, getText, obj.properties[i]) != []
    requires TopStatement(obj, ancestors) == TypeError
    ensures ObjectOutcome(obj, ancestors, getText) == TypeError
  {
    var properties := obj.properties;
    PrefixReports(obj, ancestors, getText, properties, i);
    ReportsPersist(obj, ancestors, getText, properties[..i + 1], properties[i + 1..]);
    assert properties[..i + 1] + properties[i + 1..] == properties;
    var findings := ObjectFindings(obj, ancestors, getText, properties);
    assert findings[0] in findings && findings[0].fix.TypeError?;
  }

  lemma PrefixReports(obj: Node, ancestors: seq<Node>, getText: Node -> string, properties: seq<Node>, i: nat)
    requires i < |properties| && PropertyFinding(obj, ancestors, getText, properties[i]) != []
    ensures ObjectFindings(obj, ancestors, getText, properties[..i + 1]) != []
  {
    var prefix := properties[..i + 1];
    assert Front(prefix) == properties[..i] && Last(prefix) == properties[i];
  }

  lemma ReportsPersist(obj: Node, ancestors: seq<Node>, getText: Node -> string, a: seq<Node>, b: seq<Node>)
    requires ObjectFindings(obj, ancestors, getText, a) != []
    ensures ObjectFindings(obj, ancestors, getText, a + b) != []
  {
    ObjectFindingsAppend(obj, ancestors, getText, a, b);
  }

  lemma NextProperty(obj: Node, ancestors: seq<Node>, getText: Node -> string, properties: seq<Node>, i: nat)
    requires i < |properties|
    ensures ObjectFindings(obj, ancestors, getText, properties[..i + 1]) ==
      ObjectFindings(obj, ancestors, getText, properties[..i]) + PropertyFinding(obj, ancestors, getText, properties[i])
  {
    assert Front(properties[..i + 1]) == properties[..i] && Last(properties[..i + 1]) == properties[i];
  }

  /**
    `context.report` for a long-valued property: its fix walks up from the
    object, so the report throws iff the walk does.
   */
  method ReportProperty(obj: Node, ancestors: seq<Node>, getText: Node -> string, property: Node) returns (r: Result<Finding>)
    requires property.Property? && TooLong(getText(property.value))
    ensures r.Ok? <==> TopStatement(obj, ancestors).Ok?
    ensures r.Ok? ==> PropertyFinding(obj, ancestors, getText, property) == [r.value]
  {
    var text := getText(property.value);
    var top := FindTop(obj, ancestors);
    if top.TypeError? {
      return TypeError;
    }
    return Ok(Finding(property, Message, FixFromTop(top, property, text)));
  }

  /**
    One turn of the property loop: `properties[i]` is reported when it is a
    `Property` whose value is long, and a report that throws ends the handler.
   */
  method VisitProperty(obj: Node, ancestors: seq<Node>, getText: Node -> string, i: nat, findings: seq<Finding>)
    returns (r: Result<seq<Finding>>)
    requires obj.ObjectExpression? && i < |obj.properties|
    requires findings == ObjectFindings(obj, ancestors, getText, obj.properties[..i])
    requires findings != [] ==> TopStatement(obj, ancestors).Ok?
    ensures r.TypeError? ==> ObjectOutcome(obj, ancestors, getText) == TypeError
    ensures r.Ok? ==> r.value == ObjectFindings(obj, ancestors, getText, obj.properties[..i + 1])
    ensures r.Ok? && r.value != [] ==> TopStatement(obj, ancestors).Ok?
  {
    var property := obj.properties[i];
    NextProperty(obj, ancestors, getText, obj.properties, i);
    if property.Property? && LineCount(getText(property.value)) > MaxLines {
      var finding := ReportProperty(obj, ancestors, getText, property);
      if finding.TypeError? {
        ThrowingFixAborts(obj, ancestors, getText, i);
        return TypeError;
      }
      return Ok(findings + [finding.value]);
    }
    return Ok(findings);
  }

  /**
    `ObjectExpression(node)`: one finding per long-valued property, in
    property order, spreads skipped; the first report whose fix throws
    aborts the handler.
   */
  method OnObjectExpression(obj: Node, ancestors: seq<Node>, getText: Node -> string) returns (r: Result<seq<Finding>>)
    requires obj.ObjectExpression?
    ensures r == ObjectOutcome(obj, ancestors, getText)
  {
    var findings: seq<Finding> := [];
    var i := 0;
    assert obj.properties[..0] == [];
    while i < |obj.properties|
      invariant 0 <= i <= |obj.properties|
      invariant findings == ObjectFindings(obj, ancestors, getText, obj.properties[..i])
      invariant findings != [] ==> TopStatement(obj, ancestors).Ok?
    {
      var next := VisitProperty(obj, ancestors, getText, i, findings);
      if next.TypeError? {
        return TypeError;
      }
      findings := next.value;
      i := i + 1;
    }
    assert obj.properties[..i] == obj.properties;
    return Ok(findings);
  }

  // ---------------------------------------------------------------------
  // The cases of lib/complex-objects.test.js
  // ---------------------------------------------------------------------

  /** Splitting a text that starts with an ordinary character. */
  lemma SplitPlain(c: char, t: string)
    requires !IsLineBreak(c)
    ensures SplitLines([c] + t) == [[c] + SplitLines(t)[0]] + SplitLines(t)[1..]
  {
    assert ([c] + t)[1..] == t;
  }

  /** Splitting a text that starts with a separator. */
  lemma SplitAfterBreak(sep: string, t: string)
    requires sep == "\r\n" || sep == "\n" || (sep == "\r" && (t == [] || t[0] != '\n'))
    ensures SplitLines(sep + t) == [""] + SplitLines(t)
  {
    assert BreakAt(sep + t) == sep;
    assert (sep + t)[|sep|..] == t;
  }

  /** A one-character line is one piece. */
  lemma SplitSingle(c: char)
    requires !IsLineBreak(c)
    ensures SplitLines([c]) == [[c]]
  {
    SplitPlain(c, []);
    assert [c] + [] == [c];
  }

  /** Splitting `x` followed by a text that starts with a separator. */
  lemma SplitCharThenBreak(x: char, sep: string, t: string)
    requires !IsLineBreak(x)
    requires sep == "\r\n" || sep == "\n" || (sep == "\r" && (t == [] || t[0] != '\n'))
    ensures SplitLines([x] + (sep + t)) == [[x]] + SplitLines(t)
  {
    SplitAfterBreak(sep, t);
    SplitPlain(x, sep + t);
    assert [x] + [] == [x];
    assert ([""] + SplitLines(t))[1..] == SplitLines(t);
  }

  /** `x\r\ny` is two pieces, not three. */
  lemma CrLfIsOneBreak(x: char, y: char)
    requires !IsLineBreak(x) && !IsLineBreak(y)
    ensures SplitLines([x, '\r', '\n', y]) == [[x], [y]]
  {
    SplitSingle(y);
    SplitCharThenBreak(x, "\r\n", [y]);
    assert [x, '\r', '\n', y] == [x] + ("\r\n" + [y]);
  }

  /** `x\ry` and `x\ny` are two pieces each. */
  lemma LoneBreaksSplit(x: char, y: char)
    requires !IsLineBreak(x) && !IsLineBreak(y)
    ensures SplitLines([x, '\r', y]) == [[x], [y]]
    ensures SplitLines([x, '\n', y]) == [[x], [y]]
  {
    SplitSingle(y);
    SplitCharThenBreak(x, "\r", [y]);
    assert [x, '\r', y] == [x] + ("\r" + [y]);
    SplitCharThenBreak(x, "\n", [y]);
    assert [x, '\n', y] == [x] + ("\n" + [y]);
  }

  /** `x\n\ry` is three pieces: `\n\r` is two separators. */
  lemma LfCrIsTwoBreaks(x: char, y: char)
    requires !IsLineBreak(x) && !IsLineBreak(y)
    ensures SplitLines([x, '\n', '\r', y]) == [[x], [], [y]]
  {
    SplitSingle(y);
    SplitAfterBreak("\r", [y]);
    SplitCharThenBreak(x, "\n", "\r" + [y]);
    assert [x, '\n', '\r', y] == [x] + ("\n" + ("\r" + [y]));
  }

  /** The count of breaks in a text that starts with `c`. */
  lemma CountBreaksCons(c: char, t: string)
    ensures CountBreaks([c] + t) == (if c == '\n' || (c == '\r' && (t == [] || t[0] != '\n')) then 1 else 0) + CountBreaks(t)
  {
    assert ([c] + t)[1..] == t;
  }

  /** `c\n` before a line that starts with an ordinary character adds one break. */
  lemma CountBreaksNewLine(c: char, t: string)
    requires !IsLineBreak(c) && t != [] && !IsLineBreak(t[0])
    ensures CountBreaks([c, '\n'] + t) == 1 + CountBreaks(t)
  {
    assert ([c, '\n'] + t)[1..] == ['\n'] + t;
    assert (['\n'] + t)[1..] == t;
  }

  /** A text without margins is its own trim. */
  lemma TrimWithoutMargins(s: string)
    requires s != [] && !IsWhitespace(s[0]) && !IsWhitespace(Last(s))
    ensures Trim(s) == s
  {
  }

  /** A line of text holds no line break. */
  predicate NoBreaks(line: string)
  {
    forall k :: 0 <= k < |line| ==> !IsLineBreak(line[k])
  }

  /** Lines joined by `\n`: the text starts with the first line and ends with the last. */
  function NewlineJoined(lines: seq<string>): (r: string)
    requires |lines| > 0
    ensures |lines[0]| <= |r| && r[..|lines[0]|] == lines[0]
    ensures |Last(lines)| <= |r| && r[|r| - |Last(lines)|..] == Last(lines)
    decreases |lines|
  {
    if |lines| == 1 then lines[0]
    else
      var rest := NewlineJoined(lines[1..]);
      assert Last(lines[1..]) == Last(lines);
      assert (lines[0] + (['\n'] + rest))[|lines[0]| + 1 + |rest| - |Last(lines)|..] == rest[|rest| - |Last(lines)|..];
      lines[0] + (['\n'] + rest)
  }

  /** A line without breaks stays whole at the front of the first piece. */
  lemma {:induction false} SplitLine(line: string, t: string)
    requires NoBreaks(line)
    ensures SplitLines(line + t) == [line + SplitLines(t)[0]] + SplitLines(t)[1..]
    decreases |line|
  {
    if line != [] {
      var tail := line[1..];
      assert NoBreaks(tail) by {
        forall k | 0 <= k < |tail| ensures !IsLineBreak(tail[k]) { assert tail[k] == line[k + 1]; }
      }
      SplitLine(tail, t);
      var pieces, rest := SplitLines(t), SplitLines(tail + t);
      assert rest[0] == tail + pieces[0] && rest[1..] == pieces[1..];
      assert line + t == [line[0]] + (tail + t);
      SplitPlain(line[0], tail + t);
      assert [line[0]] + (tail + pieces[0]) == line + pieces[0];
    } else {
      assert line + t == t;
      assert line + SplitLines(t)[0] == SplitLines(t)[0];
      assert [SplitLines(t)[0]] + SplitLines(t)[1..] == SplitLines(t);
    }
  }

  /** A leading `\n` ends an empty first piece. */
  lemma SplitAfterNewline(t: string)
    ensures SplitLines(['\n'] + t) == [[]] + SplitLines(t)
  {
    assert BreakAt(['\n'] + t) == ['\n'];
    assert (['\n'] + t)[1..] == t;
  }

  /** A line without breaks, then `\n`: the line is a piece of its own. */
  lemma SplitLineThenNewline(line: string, rest: string)
    requires NoBreaks(line)
    ensures SplitLines(line + (['\n'] + rest)) == [line] + SplitLines(rest)
  {
    SplitAfterNewline(rest);
    SplitLine(line, ['\n'] + rest);
    assert line + [] == line;
  }

  /** Splitting lines joined by `\n` gives the lines back. */
  lemma {:induction false} SplitNewlineJoined(lines: seq<string>)
    requires |lines| > 0 && forall line :: line in lines ==> NoBreaks(line)
    ensures SplitLines(NewlineJoined(lines)) == lines
    decreases |lines|
  {
    var first := lines[0];
    assert NoBreaks(first);
    if |lines| == 1 {
      SplitLine(first, []);
      assert first + [] == first;
      assert SplitLines([]) == [[]];
    } else {
      var tail := lines[1..];
      assert forall line :: line in tail ==> line in lines;
      SplitNewlineJoined(tail);
      SplitLineThenNewline(first, NewlineJoined(tail));
      assert [first] + tail == lines;
    }
  }

  /** `n` lines joined by `\n` hold `n - 1` line breaks. */
  lemma NewlineJoinedBreaks(lines: seq<string>)
    requires |lines| > 0 && forall line :: line in lines ==> NoBreaks(line)
    ensures CountBreaks(NewlineJoined(lines)) == |lines| - 1
  {
    SplitNewlineJoined(lines);
    PieceCount(NewlineJoined(lines));
  }

  /**
    Lines whose text starts and ends visibly, joined by `\n`, as the values
    of the tests are: their split after `trim()` is the lines themselves, so
    five pass and six are reported, as with the five-line function and the
    eight-line function and array values.
   */
  lemma MoreThanFiveLinesIsTooLong(lines: seq<string>)
    requires |lines| > 0 && forall line :: line in lines ==> NoBreaks(line)
    requires lines[0] != [] && !IsWhitespace(lines[0][0])
    requires Last(lines) != [] && !IsWhitespace(Last(Last(lines)))
    ensures SplitLines(Trim(NewlineJoined(lines))) == lines
    ensures TooLong(NewlineJoined(lines)) <==> |lines| > MaxLines
  {
    var text := NewlineJoined(lines);
    assert text[0] == text[..|lines[0]|][0] == lines[0][0];
    assert Last(text) == text[|text| - |Last(lines)|..][|Last(lines)| - 1] == Last(Last(lines));
    TrimWithoutMargins(text);
    SplitNewlineJoined(lines);
  }

  /** `{ ...supportSpread }` reports nothing: a spread element has no key. */
  lemma SpreadIsSkipped(obj: Node, ancestors: seq<Node>, getText: Node -> string, argument: Node)
    ensures ObjectFindings(obj, ancestors, getText, [SpreadElement(argument)]) == []
  {
    assert Front([SpreadElement(argument)]) == [];
  }

  /**
    `const data = { complexArray: … }` with a long value: inside the
    `VariableDeclarator` of a `VariableDeclaration` of the program, the
    declaration is hoisted before that `VariableDeclaration` and the value
    becomes `complexArray`.
   */
  lemma HoistBeforeDeclaration(obj: Node, declarator: Node, declaration: Node, body: seq<Node>, value: Node, text: string)
    requires declarator == Opaque("VariableDeclarator") && declaration == Opaque("VariableDeclaration")
    ensures FixEdits(obj, [declarator, declaration, Program(body)], Property(Identifier("complexArray"), value), text)
      == Ok([InsertTextBefore(declaration, "const " + "complexArray" + " = " + text + ";\n"), ReplaceText(value, "complexArray")])
  {
    var ancestors := [declarator, declaration, Program(body)];
    assert !IsStop(declarator) && !IsStop(declaration) && IsStop(Program(body));
    assert ancestors[1..] == [declaration, Program(body)];
    assert TopStatement(declaration, [Program(body)]) == Ok(declaration);
    assert TopStatement(declarator, ancestors[1..]) == Ok(declaration);
  }
}
