/** The conventional-commit record and its rendering (git.go). `Message`
    is the rendering in closed form. The fixed `text/template` the source
    executes is kept as a syntax tree, run by a small interpreter of the
    part of `text/template` it uses, and proved to print the same text;
    `Parse` inverts `Message` on records whose fields cannot be confused
    with the punctuation around them. */
module Git {
  import opened Base

  /** The record the form fills in (git.go, `type Commit`). */
  datatype Commit = Commit(
    kind: Bytes,            // the `Type` field
    breakingChange: bool,
    scope: Bytes,
    description: Bytes,
    body: Bytes)

  /** A field value as the template engine sees it. */
  datatype Value = Str(s: Bytes) | Flag(b: bool)

  /** The node kinds of the template: literal text, `{{.Field}}`, and
      `{{if .Field}}...{{end}}`. */
  datatype Node =
    | Text(text: Bytes)
    | Action(field: Bytes)
    | If(cond: Bytes, body: seq<Node>)

  /** Name resolution on a record, for its five fields only. On a
      `*Commit`, `text/template` would also resolve the niladic method
      `Message`; methods are not modelled, since the template names none.
      Any name outside the five is an execution error here. */
  function Lookup(c: Commit, name: Bytes): (r: Option<Value>)
    ensures r.Some? <==> name in {"Type", "BreakingChange", "Scope", "Description", "Body"}
  {
    if name == "Type" then Some(Str(c.kind))
    else if name == "BreakingChange" then Some(Flag(c.breakingChange))
    else if name == "Scope" then Some(Str(c.scope))
    else if name == "Description" then Some(Str(c.description))
    else if name == "Body" then Some(Str(c.body))
    else None
  }

  /** How `{{.Field}}` prints a value: strings verbatim, booleans as words. */
  function Print(v: Value): Bytes {
    match v
    case Str(s) => s
    case Flag(b) => if b then "true" else "false"
  }

  /** The truth of a value in `{{if}}`: a non-empty string, or true. */
  predicate Truthy(v: Value) {
    match v
    case Str(s) => s != []
    case Flag(b) => b
  }

  /** Runs one node against a record. */
  function ExecuteNode(n: Node, c: Commit): (r: Result<Bytes>)
    decreases n
  {
    match n
    case Text(t) => Ok(t)
    case Action(f) =>
      (match Lookup(c, f)
       case None => Err(f)
       case Some(v) => Ok(Print(v)))
    case If(f, body) =>
      (match Lookup(c, f)
       case None => Err(f)
       case Some(v) => if Truthy(v) then Execute(body, c) else Ok([]))
  }

  /** Runs a template against a record, concatenating the output of its
      nodes; the first unknown field name aborts with an error. */
  function Execute(nodes: seq<Node>, c: Commit): (r: Result<Bytes>)
    decreases nodes
  {
    if nodes == [] then Ok([])
    else
      match ExecuteNode(nodes[0], c)
      case Err(e) => Err(e)
      case Ok(h) =>
        match Execute(nodes[1..], c)
        case Err(e) => Err(e)
        case Ok(t) => Ok(h + t)
  }

  /** `templateString` as a tree: the type; the scope in parentheses if
      set; `!` if breaking; `: ` and the description; a blank line and the
      body if set. */
  const CommitTemplate: seq<Node> := [
    Action("Type"),
    If("Scope", [Text("("), Action("Scope"), Text(")")]),
    If("BreakingChange", [Text("!")]),
    Text(": "),
    Action("Description"),
    If("Body", [Text("\n\n"), Action("Body")])
  ]

  /** The `(scope)` segment, present only for a non-empty scope. */
  function ScopeSegment(scope: Bytes): Bytes {
    if scope == [] then [] else "(" + scope + ")"
  }

  /** The `!` marker, present only for a breaking change. */
  function BreakingMarker(breaking: bool): Bytes {
    if breaking then "!" else []
  }

  /** The first line of the message. */
  function Header(c: Commit): Bytes {
    c.kind + (ScopeSegment(c.scope) + (BreakingMarker(c.breakingChange) + (": " + c.description)))
  }

  /** The body part, separated from the header by one blank line. */
  function BodySection(body: Bytes): Bytes {
    if body == [] then [] else "\n\n" + body
  }

  /** The text of `Commit.Message` in closed form: type, optional
      (scope), optional !, ": ", description, optional body after a blank
      line. `Render` below is the source's way of producing it. */
  function Message(c: Commit): Bytes {
    c.kind + (ScopeSegment(c.scope) + (BreakingMarker(c.breakingChange) +
      (": " + (c.description + BodySection(c.body)))))
  }

  lemma Assoc(a: Bytes, b: Bytes, d: Bytes)
    ensures (a + b) + d == a + (b + d)
  {
  }

  /** The message is its header followed by the body part. */
  lemma HeaderThenBody(c: Commit)
    ensures Message(c) == Header(c) + BodySection(c.body)
  {
    var b := BodySection(c.body);
    var d := ": " + c.description;
    var m := BreakingMarker(c.breakingChange);
    var sc := ScopeSegment(c.scope);
    Assoc(": ", c.description, b);
    Assoc(m, d, b);
    Assoc(sc, m + d, b);
    Assoc(c.kind, sc + (m + d), b);
  }

  /** Executing a non-empty node list is executing its head, then its tail. */
  lemma ExecuteStep(n: Node, rest: seq<Node>, c: Commit, h: Bytes, t: Bytes)
    requires ExecuteNode(n, c) == Ok(h)
    requires Execute(rest, c) == Ok(t)
    ensures Execute([n] + rest, c) == Ok(h + t)
  {
    assert ([n] + rest)[1..] == rest;
  }

  /** A template of literal text alone prints that text. */
  lemma ExecuteText(t: Bytes, c: Commit)
    ensures Execute([Text(t)], c) == Ok(t)
  {
    var empty: seq<Node> := [];
    ExecuteStep(Text(t), empty, c, t, []);
    assert [Text(t)] + empty == [Text(t)];
    assert t + [] == t;
  }

  lemma ScopeNode(c: Commit)
    ensures ExecuteNode(If("Scope", [Text("("), Action("Scope"), Text(")")]), c) == Ok(ScopeSegment(c.scope))
  {
    ExecuteText(")", c);
    ExecuteStep(Action("Scope"), [Text(")")], c, c.scope, ")");
    ExecuteStep(Text("("), [Action("Scope"), Text(")")], c, "(", c.scope + ")");
    assert "(" + (c.scope + ")") == "(" + c.scope + ")";
  }

  lemma BreakingNode(c: Commit)
    ensures ExecuteNode(If("BreakingChange", [Text("!")]), c) == Ok(BreakingMarker(c.breakingChange))
  {
    ExecuteText("!", c);
  }

  lemma BodyNode(c: Commit)
    ensures ExecuteNode(If("Body", [Text("\n\n"), Action("Body")]), c) == Ok(BodySection(c.body))
  {
    var empty: seq<Node> := [];
    ExecuteStep(Action("Body"), empty, c, c.body, []);
    assert [Action("Body")] + empty == [Action("Body")];
    assert c.body + [] == c.body;
    ExecuteStep(Text("\n\n"), [Action("Body")], c, "\n\n", c.body);
  }

  /** Executing the template never fails on a `Commit`, since every field
      it names exists, and it prints exactly `Message`. */
  lemma TemplateNeverFails(c: Commit)
    ensures Execute(CommitTemplate, c) == Ok(Message(c))
  {
    var empty: seq<Node> := [];
    var n5 := If("Body", [Text("\n\n"), Action("Body")]);
    var n4 := Action("Description");
    var n3 := Text(": ");
    var n2 := If("BreakingChange", [Text("!")]);
    var n1 := If("Scope", [Text("("), Action("Scope"), Text(")")]);
    var n0 := Action("Type");
    var b := BodySection(c.body);
    var m := BreakingMarker(c.breakingChange);
    var sc := ScopeSegment(c.scope);
    BodyNode(c);
    BreakingNode(c);
    ScopeNode(c);
    ExecuteStep(n5, empty, c, b, []);
    assert [n5] + empty == [n5];
    assert b + [] == b;
    ExecuteStep(n4, [n5], c, c.description, b);
    ExecuteStep(n3, [n4, n5], c, ": ", c.description + b);
    ExecuteStep(n2, [n3, n4, n5], c, m, ": " + (c.description + b));
    ExecuteStep(n1, [n2, n3, n4, n5], c, sc, m + (": " + (c.description + b)));
    ExecuteStep(n0, [n1, n2, n3, n4, n5], c, c.kind, sc + (m + (": " + (c.description + b))));
    assert [n0, n1, n2, n3, n4, n5] == CommitTemplate;
  }

  /** `Commit.Message` as the source computes it: execute the template,
      and on an execution error print it and return the empty string. The
      result is always the closed-form message; the error branch is never
      taken. */
  function Render(c: Commit): (r: Bytes)
    ensures r == Message(c)
    ensures Execute(CommitTemplate, c).Ok?
  {
    TemplateNeverFails(c);
    match Execute(CommitTemplate, c)
    case Ok(s) => s
    case Err(_) => []
  }

  /** The message starts with the type, verbatim. */
  lemma StartsWithType(c: Commit)
    ensures Message(c)[..|c.kind|] == c.kind
    ensures |Message(c)| >= |c.kind| + 2 + |c.description|
  {
  }

  /** Where the segment after a prefix starts and what it holds. */
  lemma ScopeAt(pre: Bytes, scope: Bytes, tail: Bytes)
    requires tail != [] && tail[0] != '('
    ensures var s := pre + (ScopeSegment(scope) + tail);
      && |s| > |pre|
      && (s[|pre|] == '(' <==> scope != [])
      && (scope != [] ==> s[|pre|..|pre| + |scope| + 2] == "(" + scope + ")")
  {
  }

  /** The byte right after the type opens a scope segment exactly when the
      scope is non-empty; the segment holds the scope verbatim. */
  lemma ScopeSegmentIff(c: Commit)
    ensures |Message(c)| > |c.kind|
    ensures Message(c)[|c.kind|] == '(' <==> c.scope != []
    ensures c.scope != [] ==> Message(c)[|c.kind|..|c.kind| + |c.scope| + 2] == "(" + c.scope + ")"
  {
    var tail := BreakingMarker(c.breakingChange) + (": " + (c.description + BodySection(c.body)));
    var s := c.kind + (ScopeSegment(c.scope) + tail);
    assert Message(c) == s;
    ScopeAt(c.kind, c.scope, tail);
  }

  lemma MarkerAt(pre: Bytes, breaking: bool, tail: Bytes)
    ensures var s := pre + (BreakingMarker(breaking) + (": " + tail));
      && |s| >= |pre| + 2
      && (s[|pre|] == '!' <==> breaking)
      && (breaking ==> s[|pre|..|pre| + 3] == "!: ")
      && (!breaking ==> s[|pre|..|pre| + 2] == ": ")
  {
  }

  /** After the type and any scope segment comes `!: ` exactly for a
      breaking change, and `: ` otherwise. */
  lemma BreakingMarkerIff(c: Commit)
    ensures |Message(c)| >= |c.kind| + |ScopeSegment(c.scope)| + 2
    ensures var i := |c.kind| + |ScopeSegment(c.scope)|;
      && (Message(c)[i] == '!' <==> c.breakingChange)
      && (c.breakingChange ==> Message(c)[i..i + 3] == "!: ")
      && (!c.breakingChange ==> Message(c)[i..i + 2] == ": ")
  {
    var pre := c.kind + ScopeSegment(c.scope);
    var tail := c.description + BodySection(c.body);
    var rest := BreakingMarker(c.breakingChange) + (": " + tail);
    Assoc(c.kind, ScopeSegment(c.scope), rest);
    MarkerAt(pre, c.breakingChange, tail);
  }

  lemma HeaderEnd(pre: Bytes, description: Bytes)
    ensures var h := pre + (": " + description);
      && |h| >= |description| + 2
      && h[|h| - |description| - 2..] == ": " + description
  {
    var h := pre + (": " + description);
    assert h[|pre|..] == ": " + description;
  }

  lemma BodyAfter(h: Bytes, body: Bytes)
    ensures var s := h + BodySection(body);
      && s[..|h|] == h
      && (body == [] <==> s == h)
      && (body != [] ==> s[|h|..] == "\n\n" + body)
  {
    var s := h + BodySection(body);
    assert s[|h|..] == BodySection(body);
  }

  /** The header ends with `: ` and the description; a non-empty body
      follows it after exactly one blank line, and an empty body adds
      nothing, not even a newline. */
  lemma BodySeparation(c: Commit)
    ensures var h := Header(c);
      && |h| >= |c.description| + 2
      && h[|h| - |c.description| - 2..] == ": " + c.description
      && Message(c)[..|h|] == h
      && (c.body == [] <==> Message(c) == h)
      && (c.body != [] ==> Message(c)[|h|..] == "\n\n" + c.body)
  {
    var pre := c.kind + (ScopeSegment(c.scope) + BreakingMarker(c.breakingChange));
    Assoc(c.kind, ScopeSegment(c.scope) + BreakingMarker(c.breakingChange), ": " + c.description);
    Assoc(ScopeSegment(c.scope), BreakingMarker(c.breakingChange), ": " + c.description);
    assert Header(c) == pre + (": " + c.description);
    HeaderEnd(pre, c.description);
    HeaderThenBody(c);
    BodyAfter(Header(c), c.body);
  }

  /** The length of the message, segment by segment. */
  lemma LengthLaw(c: Commit)
    ensures |Message(c)| ==
      |c.kind|
      + (if c.scope != [] then |c.scope| + 2 else 0)
      + (if c.breakingChange then 1 else 0)
      + 2 + |c.description|
      + (if c.body != [] then 2 + |c.body| else 0)
  {
  }

  // The cases of the message test table. Each expected text is written
  // split where its segments meet.

  /** Type and description only. */
  lemma ExampleTypeOnly()
    ensures Message(Commit("feat", false, "", "Add user login feature", ""))
      == "feat" + ": " + "Add user login feature"
  {
  }

  /** With a scope. */
  lemma ExampleScope()
    ensures Message(Commit("fix", false, "auth", "Fix login issue", ""))
      == "fix" + "(auth)" + ": " + "Fix login issue"
  {
  }

  /** With a scope and a breaking change. */
  lemma ExampleBreaking()
    ensures Message(Commit("feat", true, "auth", "Introduce SSO login", ""))
      == "feat" + "(auth)" + "!" + ": " + "Introduce SSO login"
  {
  }

  /** With every field: the body follows after one blank line. */
  lemma ExampleComplete()
    ensures Message(Commit("feat", true, "auth", "Introduce SSO login",
      "This enables single sign-on functionality for external providers."))
      == "feat" + "(auth)" + "!" + ": " + "Introduce SSO login" + "\n\n"
         + "This enables single sign-on functionality for external providers."
  {
  }

  /** The bytes that end the type in a message. */
  const TypeStops: set<char> := {'(', '!', ':'}

  /** A record whose fields cannot be confused with the punctuation around
      them: no `(`, `!` or `:` in the type, no `)` in the scope, no line
      break in the description. Every selectable type, and any one-line
      description, qualifies. */
  predicate Unambiguous(c: Commit) {
    && (forall i :: 0 <= i < |c.kind| ==> c.kind[i] !in TypeStops)
    && (forall i :: 0 <= i < |c.scope| ==> c.scope[i] != ')')
    && (forall i :: 0 <= i < |c.description| ==> c.description[i] != '\n')
  }

  /** Splits an optional `(scope)` off the front of what follows the type. */
  function ParseScope(s: Bytes): Option<(Bytes, Bytes)> {
    if s == [] || s[0] != '(' then Some(([], s))
    else
      var j := FirstIn(s[1..], {')'});
      if j == 0 || j == |s| - 1 then None
      else Some((s[1..j + 1], s[j + 2..]))
  }

  /** Splits what follows `: ` into the description and an optional body. */
  function ParseBody(s: Bytes): Option<(Bytes, Bytes)> {
    var k := FirstIn(s, {'\n'});
    if k == |s| then Some((s, []))
    else if k + 2 < |s| && s[k + 1] == '\n' then Some((s[..k], s[k + 2..]))
    else None
  }

  /** Reads what follows the scope segment: the optional `!`, `: `, the
      description and the optional body. */
  function ParseAfterScope(kind: Bytes, scope: Bytes, rest: Bytes): Option<Commit> {
    var breaking := rest != [] && rest[0] == '!';
    var tail := if breaking then rest[1..] else rest;
    if |tail| < 2 || tail[..2] != ": " then None
    else
      match ParseBody(tail[2..])
      case None => None
      case Some((description, body)) => Some(Commit(kind, breaking, scope, description, body))
  }

  /** Reads a message back into the record that renders to it, or None. */
  function Parse(s: Bytes): Option<Commit> {
    var i := FirstIn(s, TypeStops);
    match ParseScope(s[i..])
    case None => None
    case Some((scope, rest)) => ParseAfterScope(s[..i], scope, rest)
  }

  lemma ParseScopeRoundTrip(scope: Bytes, tail: Bytes)
    requires forall i :: 0 <= i < |scope| ==> scope[i] != ')'
    requires tail != [] && tail[0] != '('
    ensures ParseScope(ScopeSegment(scope) + tail) == Some((scope, tail))
  {
    if scope != [] {
      var s := ScopeSegment(scope) + tail;
      assert s[1..] == scope + (")" + tail);
      FirstInAtSeam(scope, ")" + tail, {')'});
      assert s[1..|scope| + 1] == scope;
      assert s[|scope| + 2..] == tail;
    } else {
      assert ScopeSegment(scope) + tail == tail;
    }
  }

  lemma ParseBodyRoundTrip(description: Bytes, body: Bytes)
    requires forall i :: 0 <= i < |description| ==> description[i] != '\n'
    ensures ParseBody(description + BodySection(body)) == Some((description, body))
  {
    if body == [] {
      assert description + BodySection(body) == description;
      FirstInNone(description, {'\n'});
    } else {
      ParseBodyAfterBreak(description, body);
    }
  }

  lemma ParseBodyAfterBreak(description: Bytes, body: Bytes)
    requires forall i :: 0 <= i < |description| ==> description[i] != '\n'
    requires body != []
    ensures ParseBody(description + ("\n\n" + body)) == Some((description, body))
  {
    var sep := "\n\n" + body;
    var s := description + sep;
    FirstInAtSeam(description, sep, {'\n'});
    assert s[..|description|] == description;
    assert s[|description| + 2..] == body by {
      assert s[|description|..] == sep;
      assert sep[2..] == body;
    }
  }

  lemma AfterScopeRoundTrip(c: Commit)
    requires forall i :: 0 <= i < |c.description| ==> c.description[i] != '\n'
    ensures ParseAfterScope(c.kind, c.scope, BreakingMarker(c.breakingChange) +
      (": " + (c.description + BodySection(c.body)))) == Some(c)
  {
    var body := c.description + BodySection(c.body);
    var tail := ": " + body;
    var rest := BreakingMarker(c.breakingChange) + tail;
    if c.breakingChange {
      assert rest == "!" + tail;
      assert rest[1..] == tail;
    } else {
      assert rest == tail;
    }
    assert tail[..2] == ": " && tail[2..] == body;
    ParseBodyRoundTrip(c.description, c.body);
  }

  /** Every unambiguous record is recovered from its message, so distinct
      unambiguous records render to distinct messages. */
  lemma ParseMessage(c: Commit)
    requires Unambiguous(c)
    ensures Parse(Message(c)) == Some(c)
  {
    var afterScope := BreakingMarker(c.breakingChange) + (": " + (c.description + BodySection(c.body)));
    var afterType := ScopeSegment(c.scope) + afterScope;
    var s := c.kind + afterType;
    assert Message(c) == s;
    assert afterType[0] in TypeStops;
    FirstInAtSeam(c.kind, afterType, TypeStops);
    assert s[..|c.kind|] == c.kind && s[|c.kind|..] == afterType;
    ParseScopeRoundTrip(c.scope, afterScope);
    AfterScopeRoundTrip(c);
  }

  lemma ParseScopeSound(s: Bytes)
    requires ParseScope(s).Some?
    ensures var (scope, rest) := ParseScope(s).value;
      && (forall i :: 0 <= i < |scope| ==> scope[i] != ')')
      && s == ScopeSegment(scope) + rest
  {
    if s != [] && s[0] == '(' {
      var j := FirstIn(s[1..], {')'});
      assert s[1..][j] == ')';
      assert s == "(" + s[1..j + 1] + ")" + s[j + 2..];
    }
  }

  lemma ParseBodySound(s: Bytes)
    requires ParseBody(s).Some?
    ensures var (description, body) := ParseBody(s).value;
      && (forall i :: 0 <= i < |description| ==> description[i] != '\n')
      && s == description + BodySection(body)
  {
    var k := FirstIn(s, {'\n'});
    if k < |s| {
      assert s == s[..k] + "\n\n" + s[k + 2..];
    }
  }

  lemma AfterScopeSound(kind: Bytes, scope: Bytes, rest: Bytes)
    requires ParseAfterScope(kind, scope, rest).Some?
    ensures var c := ParseAfterScope(kind, scope, rest).value;
      && c.kind == kind && c.scope == scope
      && (forall i :: 0 <= i < |c.description| ==> c.description[i] != '\n')
      && rest == BreakingMarker(c.breakingChange) + (": " + (c.description + BodySection(c.body)))
  {
    var breaking := rest != [] && rest[0] == '!';
    var tail := if breaking then rest[1..] else rest;
    ParseBodySound(tail[2..]);
    assert tail == ": " + tail[2..];
    assert rest == BreakingMarker(breaking) + tail;
  }

  /** What `Parse` accepts splits at the end of the type into the type and
      the rendering of the remaining fields. */
  lemma ParseSplit(s: Bytes)
    requires Parse(s).Some?
    ensures var c := Parse(s).value;
      && |c.kind| <= |s|
      && c.kind == s[..|c.kind|]
      && (forall j :: 0 <= j < |c.kind| ==> c.kind[j] !in TypeStops)
      && (forall j :: 0 <= j < |c.scope| ==> c.scope[j] != ')')
      && (forall j :: 0 <= j < |c.description| ==> c.description[j] != '\n')
      && s[|c.kind|..] == ScopeSegment(c.scope) + (BreakingMarker(c.breakingChange) +
           (": " + (c.description + BodySection(c.body))))
  {
    var i := FirstIn(s, TypeStops);
    ParseScopeSound(s[i..]);
    var (scope, rest) := ParseScope(s[i..]).value;
    AfterScopeSound(s[..i], scope, rest);
  }

  /** A string that splits into a record's type and the rendering of its
      other fields is that record's message. */
  lemma Reassemble(s: Bytes, c: Commit)
    requires |c.kind| <= |s| && c.kind == s[..|c.kind|]
    requires s[|c.kind|..] == ScopeSegment(c.scope) + (BreakingMarker(c.breakingChange) +
      (": " + (c.description + BodySection(c.body))))
    ensures Message(c) == s
  {
    assert s == s[..|c.kind|] + s[|c.kind|..];
  }

  /** Whatever `Parse` accepts is exactly the message of the record it
      returns, and that record is unambiguous. */
  lemma ParseSound(s: Bytes)
    requires Parse(s).Some?
    ensures Unambiguous(Parse(s).value)
    ensures Message(Parse(s).value) == s
  {
    ParseSplit(s);
    Reassemble(s, Parse(s).value);
  }
}
