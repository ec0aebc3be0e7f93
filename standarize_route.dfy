/**
 * `StandarizeRouteCommand` (`route:standarize`): computes route identities,
 * works out which annotated routes to emit, renders each as a
 * `Route::...` statement and appends it to the route file.
 */
module StandarizeRoute {
  import opened Wrappers
  import opened PhpStrings
  import opened PhpArray
  import opened AnnotationParser
  import opened Routes
  import opened RouteAnnotation

  // ---------------------------------------------------------------------
  // Route identity

  /** `getRouteIdentity`: the methods joined with `|`, a space, then the compiled pattern. */
  function RouteIdentity(route: Route): string
  {
    Join("|", route.methods) + " " + route.regex
  }

  /** Methods as the parser produces them: at least one, none holding `|` or a space. */
  predicate WellFormedMethods(methods: seq<string>)
  {
    |methods| >= 1 && forall m :: m in methods ==> '|' !in m && ' ' !in m
  }

  /** The identity only looks at the methods and the pattern: name, middleware and uri play no part. */
  lemma RouteIdentityIgnoresAction(r1: Route, r2: Route)
    requires r1.methods == r2.methods && r1.regex == r2.regex
    ensures RouteIdentity(r1) == RouteIdentity(r2)
  {
  }

  /** For parsed methods the identity can be taken apart again: methods and pattern are recovered. */
  lemma RouteIdentitySplits(route: Route)
    requires WellFormedMethods(route.methods)
    ensures SplitOnce(' ', RouteIdentity(route)) == (Join("|", route.methods), Some(route.regex))
    ensures Split('|', SplitOnce(' ', RouteIdentity(route)).0) == route.methods
  {
    var joined := Join("|", route.methods);
    JoinHasNo(route.methods, ' ');
    SplitOnceAt(' ', joined, route.regex);
    SplitJoin('|', route.methods);
  }

  /** Two routes with parsed methods share an identity exactly when they share methods and pattern. */
  lemma RouteIdentitySame(r1: Route, r2: Route)
    requires WellFormedMethods(r1.methods) && WellFormedMethods(r2.methods)
    ensures RouteIdentity(r1) == RouteIdentity(r2) <==> r1.methods == r2.methods && r1.regex == r2.regex
  {
    RouteIdentitySplits(r1);
    RouteIdentitySplits(r2);
  }

  /** Every route built from annotations carries methods as the parser produces them. */
  lemma {:induction false} AnnotatedRoutesWellFormed(router: Router, controller: string, methods: seq<MethodDoc>)
    ensures forall r :: r in AnnotatedRoutes(router, controller, methods) ==> WellFormedMethods(r.methods)
  {
    if methods != [] {
      var init, m := methods[..|methods| - 1], methods[|methods| - 1];
      assert methods == init + [m];
      AnnotatedRoutesSnoc(router, controller, init, m);
      AnnotatedRoutesWellFormed(router, controller, init);
      MethodRoutesWellFormed(router, controller, m);
    }
  }

  lemma MethodRoutesWellFormed(router: Router, controller: string, m: MethodDoc)
    ensures forall r :: r in MethodRoutes(router, controller, m) ==> WellFormedMethods(r.methods)
  {
    if Parse(m.docComment).Some? {
      ParseRouteValue(m.docComment);
    }
  }

  lemma {:induction false} JoinHasNo(parts: seq<string>, c: char)
    requires c != '|' && forall p :: p in parts ==> c !in p
    ensures c !in Join("|", parts)
  {
    if |parts| > 1 {
      JoinHasNo(parts[1..], c);
      assert parts[0] in parts;
    }
  }

  /** `getRouteIdentities`: one identity per route, in the same order. */
  method GetRouteIdentities(routes: seq<Route>) returns (ids: seq<string>)
    ensures |ids| == |routes|
    ensures forall i :: 0 <= i < |routes| ==> ids[i] == RouteIdentity(routes[i])
  {
    ids := [];
    for i := 0 to |routes|
      invariant |ids| == i
      invariant forall j :: 0 <= j < i ==> ids[j] == RouteIdentity(routes[j])
    {
      ids := ids + [RouteIdentity(routes[i])];
    }
  }

  // ---------------------------------------------------------------------
  // Which annotated routes are emitted

  /** `array_diff(a, b)`: the values of `a` that do not occur in `b`, in order. */
  function ArrayDiff(a: seq<string>, b: seq<string>): (r: seq<string>)
    ensures |r| <= |a|
  {
    if a == [] then []
    else ArrayDiff(a[..|a| - 1], b) + (if a[|a| - 1] in b then [] else [a[|a| - 1]])
  }

  lemma {:induction false} ArrayDiffHas(a: seq<string>, b: seq<string>, x: string)
    ensures x in ArrayDiff(a, b) <==> x in a && x !in b
  {
    if a != [] {
      ArrayDiffHas(a[..|a| - 1], b, x);
      assert a == a[..|a| - 1] + [a[|a| - 1]];
    }
  }

  /** The routes the loop of `fire` emits: those whose identity is not a standard route's. */
  function Emitted(routes: seq<Route>, standardIds: seq<string>): seq<Route>
  {
    if routes == [] then []
    else
      var last := routes[|routes| - 1];
      Emitted(routes[..|routes| - 1], standardIds) + (if RouteIdentity(last) in standardIds then [] else [last])
  }

  lemma {:induction false} EmittedAll(routes: seq<Route>, standardIds: seq<string>)
    requires forall r :: r in routes ==> RouteIdentity(r) !in standardIds
    ensures Emitted(routes, standardIds) == routes
  {
    if routes != [] {
      var init, last := routes[..|routes| - 1], routes[|routes| - 1];
      assert routes == init + [last];
      assert last in routes;
      forall r | r in init ensures RouteIdentity(r) !in standardIds {
        assert r in routes;
      }
      EmittedAll(init, standardIds);
      assert Emitted(routes, standardIds) == Emitted(init, standardIds) + [last];
    }
  }

  /**
   * The standard identities are the application's identities minus every
   * annotated identity, so no annotated route is ever skipped: `fire`
   * emits all of them, whatever else the router holds.
   */
  lemma NoAnnotatedRouteSkipped(routes: seq<Route>, ids: seq<string>, appIds: seq<string>)
    requires |ids| == |routes| && forall i :: 0 <= i < |routes| ==> ids[i] == RouteIdentity(routes[i])
    ensures Emitted(routes, ArrayDiff(appIds, ids)) == routes
  {
    forall r | r in routes ensures RouteIdentity(r) !in ArrayDiff(appIds, ids) {
      var i :| 0 <= i < |routes| && routes[i] == r;
      assert ids[i] in ids;
      ArrayDiffHas(appIds, ids, RouteIdentity(r));
    }
    EmittedAll(routes, ArrayDiff(appIds, ids));
  }

  // ---------------------------------------------------------------------
  // Rendering (`generateStandartRoute`)

  /** The quoted, lower-cased verbs of a `Route::match` call. */
  function QuotedVerbs(methods: seq<string>): (quoted: seq<string>)
    ensures |quoted| == |methods|
  {
    seq(|methods|, i requires 0 <= i < |methods| => "'" + ToLower(methods[i]) + "'")
  }

  /** The `Route::` method to call and, for `match`, its leading list of verbs. */
  function SelectVerb(methods: seq<string>): (call: (string, string))
  {
    if methods == ["GET", "HEAD"] || methods == ["GET"] then ("get", "")
    else if methods == ["POST"] || methods == ["PUT"] || methods == ["PATCH"] || methods == ["DELETE"] then
      (ToLower(methods[0]), "")
    else ("match", "[" + Join(", ", QuotedVerbs(methods)) + "]")
  }

  /**
   * `get` for exactly GET,HEAD or GET; the lower-cased verb for exactly a
   * lone POST, PUT, PATCH or DELETE; `match` for anything else, and only
   * `match` takes the extra parameter: the bracketed, comma-separated list
   * of the quoted, lower-cased verbs.
   */
  lemma SelectVerbCases(methods: seq<string>)
    ensures SelectVerb(methods).0 == "get" <==> methods == ["GET", "HEAD"] || methods == ["GET"]
    ensures SelectVerb(methods).0 == "post" <==> methods == ["POST"]
    ensures SelectVerb(methods).0 == "put" <==> methods == ["PUT"]
    ensures SelectVerb(methods).0 == "patch" <==> methods == ["PATCH"]
    ensures SelectVerb(methods).0 == "delete" <==> methods == ["DELETE"]
    ensures SelectVerb(methods).0 == "match" <==>
      !(methods == ["GET", "HEAD"] || methods == ["GET"] || methods == ["POST"]
        || methods == ["PUT"] || methods == ["PATCH"] || methods == ["DELETE"])
    ensures SelectVerb(methods).0 == "match" ==> SelectVerb(methods).1 == "[" + Join(", ", QuotedVerbs(methods)) + "]"
    ensures SelectVerb(methods).0 == "match" <==> SelectVerb(methods).1 != ""
  {
    assert ToLower("POST") == "post";
    assert ToLower("PUT") == "put";
    assert ToLower("PATCH") == "patch";
    assert ToLower("DELETE") == "delete";
    assert SelectVerb(methods).0 == "match" ==> SelectVerb(methods).1[0] == '[';
  }

  lemma QuotedVerbsMatch()
    ensures QuotedVerbs(["GET", "POST", "DELETE"]) == ["'get'", "'post'", "'delete'"]
  {
    assert ToLower("GET") == "get";
    assert ToLower("POST") == "post";
    assert ToLower("DELETE") == "delete";
    var q := QuotedVerbs(["GET", "POST", "DELETE"]);
    assert q[0] == "'get'" && q[1] == "'post'" && q[2] == "'delete'";
  }

  lemma JoinThree(sep: string, a: string, b: string, c: string)
    ensures Join(sep, [a, b, c]) == a + sep + b + sep + c
  {
    assert [a, b, c][1..] == [b, c];
    assert [b, c][1..] == [c];
    assert Join(sep, [b, c]) == b + sep + c;
    assert a + sep + (b + sep + c) == a + sep + b + sep + c;
  }

  /** Three verbs take the generic form with a three-element lower-case list. */
  lemma SelectVerbMatch()
    ensures SelectVerb(["GET", "POST", "DELETE"]) == ("match", "['get', 'post', 'delete']")
  {
    var ms := ["GET", "POST", "DELETE"];
    assert SelectVerb(ms) == ("match", "[" + Join(", ", QuotedVerbs(ms)) + "]") by {
      assert ms != ["GET", "HEAD"] && ms != ["GET"];
      assert ms != ["POST"] && ms != ["PUT"] && ms != ["PATCH"] && ms != ["DELETE"];
    }
    var joined := "'get'" + ", " + "'post'" + ", " + "'delete'";
    assert Join(", ", QuotedVerbs(ms)) == joined by {
      QuotedVerbsMatch();
      JoinThree(", ", "'get'", "'post'", "'delete'");
    }
    MatchListText();
  }

  lemma MatchListText()
    ensures "[" + ("'get'" + ", " + "'post'" + ", " + "'delete'") + "]" == "['get', 'post', 'delete']"
  {
  }

  /** The handler reference with every `namespace\` removed. */
  function ShortUses(action: Action): string
  {
    RemoveAll(action.uses, action.namespace + "\\")
  }

  /** A handler qualified by the action's namespace loses exactly that qualification. */
  lemma ShortUsesQualified(action: Action, handler: string)
    requires action.uses == action.namespace + "\\" + handler
    requires forall i :: 0 <= i <= |handler| ==> !OccursAt(action.namespace + "\\", handler, i)
    ensures ShortUses(action) == handler
  {
    RemoveAllLeading(action.namespace + "\\", handler);
    RemoveAllAbsent(handler, action.namespace + "\\");
  }

  predicate HasName(action: Action) { action.name.Some? && !IsEmptyString(action.name.value) }

  /** The `$action_data` entries, each only when its value is not empty. */
  function ActionEntries(action: Action): seq<string>
  {
    ["'uses' => '" + ShortUses(action) + "'"]
    + (if HasName(action) then ["'as' => '" + action.name.value + "'"] else [])
    + (if action.middleware != [] then ["'middleware' => '" + Join("|", action.middleware) + "'"] else [])
    + (if !IsEmptyString(action.prefix) then ["'prefix' => '" + action.prefix + "'"] else [])
  }

  /** The action argument: the bare handler string, or the entries as an array literal. */
  function ActionArgument(action: Action): string
  {
    var entries := ActionEntries(action);
    if |entries| == 1 then "'" + ShortUses(action) + "'"
    else "[\n\t" + Join(",\n\t", entries) + "\n]"
  }

  /**
   * The action is rendered as a bare string exactly when name, middleware
   * and prefix are all empty; otherwise as an array whose first entry is
   * the handler.
   */
  lemma ActionArgumentForm(action: Action)
    ensures ActionArgument(action) == "'" + ShortUses(action) + "'"
      <==> !HasName(action) && action.middleware == [] && IsEmptyString(action.prefix)
    ensures !(!HasName(action) && action.middleware == [] && IsEmptyString(action.prefix)) ==>
      var entries := ActionEntries(action);
      |entries| >= 2 && entries[0] == "'uses' => '" + ShortUses(action) + "'"
      && ActionArgument(action) == "[\n\t" + entries[0] + ",\n\t" + Join(",\n\t", entries[1..]) + "\n]"
  {
    var entries := ActionEntries(action);
    if |entries| > 1 {
      assert ActionArgument(action)[0] == '[';
    }
  }

  function WhereClause(param: string, pattern: string): string
  {
    "->where('" + param + "', '" + pattern + "')"
  }

  /** One `->where` clause per condition, in the conditions' order. */
  function WhereClauses(conditions: Conditions): (clauses: seq<string>)
    ensures |clauses| == |conditions|
  {
    seq(|conditions|, i requires 0 <= i < |conditions| => WhereClause(conditions[i].0, conditions[i].1))
  }

  /**
   * Read back line by line, the `->where` block gives one clause per
   * condition, in the conditions' order, each naming its parameter and
   * pattern.
   */
  lemma WhereClauseLines(conditions: Conditions)
    requires |conditions| >= 1
    requires forall i :: 0 <= i < |conditions| ==> '\n' !in conditions[i].0 && '\n' !in conditions[i].1
    ensures var lines := Split('\n', Join("\n", WhereClauses(conditions)));
      |lines| == |conditions|
      && forall i :: 0 <= i < |conditions| ==> lines[i] == "->where('" + conditions[i].0 + "', '" + conditions[i].1 + "')"
  {
    var clauses := WhereClauses(conditions);
    forall c | c in clauses ensures '\n' !in c {
      var i :| 0 <= i < |clauses| && clauses[i] == c;
      assert c == "->where('" + conditions[i].0 + "', '" + conditions[i].1 + "')";
    }
    SplitJoin('\n', clauses);
  }

  /** The parameters of the `Route::` call. */
  function RouteParams(route: Route): seq<string>
  {
    var extra := SelectVerb(route.methods).1;
    (if !IsEmptyString(extra) then [extra] else []) + ["'" + route.uri + "'", ActionArgument(route.action)]
  }

  /** The statement itself: the call, its `->where` clauses joined by newlines, and a `;`. */
  function RouteStatement(route: Route): string
  {
    "\nRoute::" + SelectVerb(route.methods).0 + "(" + Join(", ", RouteParams(route)) + ")"
      + Join("\n", WhereClauses(route.conditions)) + ";"
  }

  /**
   * The statement opens with `Route::`, closes the call with `)`, and
   * ends with the `->where` block followed by `;`.
   */
  lemma RouteStatementShape(route: Route)
    ensures var st := RouteStatement(route);
      var wheres := Join("\n", WhereClauses(route.conditions));
      |st| >= |wheres| + 10 && st[..8] == "\nRoute::" && st[|st| - 1] == ';'
      && st[|st| - 1 - |wheres|..|st| - 1] == wheres && st[|st| - 2 - |wheres|] == ')'
  {
    var wheres := Join("\n", WhereClauses(route.conditions));
    var call := "\nRoute::" + SelectVerb(route.methods).0 + "(" + Join(", ", RouteParams(route)) + ")";
    var st := RouteStatement(route);
    assert st == call + wheres + ";";
    assert st[..8] == call[..8];
    assert st[|st| - 1 - |wheres|..|st| - 1] == wheres;
    assert st[|st| - 2 - |wheres|] == call[|call| - 1];
  }

  /** The rule drawn above and below the route's name: 59 dashes after the comment margin. */
  const RuleLine: string := " | " + Repeat('-', 59)

  /** The name shown in the comment: whenever `as` is set, even to an empty value. */
  function NameText(action: Action): string
  {
    if action.name.Some? then "'" + action.name.value + "'" else ""
  }

  /** The boxed comment above the statement. */
  function CommentHeader(route: Route, timestamp: string): string
  {
    "\n\n/*" + "\n" + RuleLine + "\n | Route " + NameText(route.action) + "\n" + RuleLine
      + (if !IsEmptyString(route.description) then "\n | " + Indent(route.description) + "\n | " else "")
      + "\n | generated at: " + timestamp + "\n |" + "\n */"
  }

  /** The lines of the comment, one by one; the block opens with an empty line. */
  function CommentLines(route: Route, timestamp: string): seq<string>
  {
    [""] + CommentBody(route, timestamp)
  }

  /** The lines that follow the opening empty line. */
  function CommentBody(route: Route, timestamp: string): seq<string>
  {
    ["", "/*", RuleLine, " | Route " + NameText(route.action), RuleLine]
      + (if !IsEmptyString(route.description) then ContinuedLines(Split('\n', route.description)) + [" | "] else [])
      + [" | generated at: " + timestamp, " |", " */"]
  }

  lemma CommentBodyPlain(route: Route, timestamp: string)
    requires '\n' !in timestamp
    requires route.action.name.Some? ==> '\n' !in route.action.name.value
    ensures forall l :: l in CommentBody(route, timestamp) ==> '\n' !in l
  {
    var parts := Split('\n', route.description);
    forall l | l in ContinuedLines(parts) ensures '\n' !in l {
      var i :| 0 <= i < |parts| && l == " | " + parts[i];
      assert parts[i] in parts;
    }
  }

  function ContinuedLines(lines: seq<string>): (continued: seq<string>)
    ensures |continued| == |lines|
  {
    seq(|lines|, i requires 0 <= i < |lines| => " | " + lines[i])
  }

  /** Each line preceded by a line break. */
  function LinesText(lines: seq<string>): string
  {
    if lines == [] then "" else "\n" + lines[0] + LinesText(lines[1..])
  }

  lemma {:induction false} LinesTextConcat(a: seq<string>, b: seq<string>)
    ensures LinesText(a + b) == LinesText(a) + LinesText(b)
  {
    if a != [] {
      assert (a + b)[0] == a[0] && (a + b)[1..] == a[1..] + b;
      LinesTextConcat(a[1..], b);
      assert LinesText(a + b) == ("\n" + a[0]) + (LinesText(a[1..]) + LinesText(b));
      assert LinesText(a) == ("\n" + a[0]) + LinesText(a[1..]);
      assert ("\n" + a[0]) + (LinesText(a[1..]) + LinesText(b)) == (("\n" + a[0]) + LinesText(a[1..])) + LinesText(b);
    } else {
      assert a + b == b;
    }
  }

  lemma LinesTextSingle(line: string)
    ensures LinesText([line]) == "\n" + line
  {
    assert [line][1..] == [];
  }

  lemma {:induction false} SplitLinesText(first: string, lines: seq<string>)
    requires '\n' !in first && forall l :: l in lines ==> '\n' !in l
    ensures Split('\n', first + LinesText(lines)) == [first] + lines
    decreases |lines|
  {
    if lines == [] {
      assert first + LinesText(lines) == first;
    } else {
      var head, tail := lines[0], lines[1..];
      assert head in lines;
      forall l | l in tail ensures '\n' !in l {
        assert l in lines;
      }
      SplitLinesText(head, tail);
      var rest := head + LinesText(tail);
      assert LinesText(lines) == ("\n" + head) + LinesText(tail);
      ConcatAssoc("\n", head, LinesText(tail));
      ConcatAssoc(first, "\n", rest);
      SplitAt('\n', first, rest);
      assert lines == [head] + tail;
    }
  }

  lemma MarginRegroup(line: string, more: string)
    ensures "\n | " + (line + more) == ("\n" + (" | " + line)) + more
  {
    assert "\n | " == "\n" + " | ";
  }

  /** Indenting up to the first line break: the line, then the margin, then the rest indented. */
  lemma IndentFirstLine(s: string)
    requires '\n' in s
    ensures var k := IndexOf(s, '\n');
      Indent(s) == s[..k] + ("\n | " + Indent(s[k + 1..]))
  {
    var k := IndexOf(s, '\n');
    var line, rest := s[..k], s[k + 1..];
    assert s == line + ("\n" + rest);
    IndentPlain(line);
    IndentAppend(line, "\n" + rest);
    assert ("\n" + rest)[1..] == rest;
  }

  /** The continued lines of a text, first line apart. */
  lemma ContinuedFirstLine(s: string)
    requires '\n' in s
    ensures var k := IndexOf(s, '\n');
      LinesText(ContinuedLines(Split('\n', s)))
        == ("\n" + (" | " + s[..k])) + LinesText(ContinuedLines(Split('\n', s[k + 1..])))
  {
    var k := IndexOf(s, '\n');
    var line, rest := s[..k], s[k + 1..];
    var restLines := ContinuedLines(Split('\n', rest));
    assert s == line + ['\n'] + rest;
    SplitAt('\n', line, rest);
    ContinuedLinesCons(line, Split('\n', rest));
    LinesTextConcat([" | " + line], restLines);
    LinesTextSingle(" | " + line);
  }

  lemma ContinuedLinesCons(line: string, lines: seq<string>)
    ensures ContinuedLines([line] + lines) == [" | " + line] + ContinuedLines(lines)
  {
    var l, r := ContinuedLines([line] + lines), [" | " + line] + ContinuedLines(lines);
    assert |l| == |r|;
    forall i | 0 <= i < |l| ensures l[i] == r[i] {
      if i > 0 {
        assert ([line] + lines)[i] == lines[i - 1];
      }
    }
  }

  /** The indented description is the description's lines, each continuing the comment. */
  lemma {:induction false} IndentedLines(s: string)
    ensures "\n | " + Indent(s) == LinesText(ContinuedLines(Split('\n', s)))
    decreases |s|
  {
    if '\n' !in s {
      IndentPlain(s);
      LinesTextSingle(" | " + s);
      assert ContinuedLines([s]) == [" | " + s];
    } else {
      var k := IndexOf(s, '\n');
      var line, rest := s[..k], s[k + 1..];
      IndentFirstLine(s);
      ContinuedFirstLine(s);
      IndentedLines(rest);
      MarginRegroup(line, "\n | " + Indent(rest));
    }
  }

  lemma LinesTextSnoc(lines: seq<string>, line: string)
    ensures LinesText(lines + [line]) == LinesText(lines) + "\n" + line
  {
    LinesTextConcat(lines, [line]);
    LinesTextSingle(line);
  }

  lemma AppendEmpty(x: string)
    ensures "" + x == x
  {
  }

  lemma AppendRegroup(x: string, a: string, y: string, z: string)
    ensures (x + a) + (y + z) == (x + (a + y)) + z
  {
  }

  lemma HeadLines(name: string)
    ensures LinesText(["", "/*", RuleLine, " | Route " + name, RuleLine])
      == "\n\n/*" + "\n" + RuleLine + "\n | Route " + name + "\n" + RuleLine
  {
    var lines := ["", "/*"];
    var h := "\n\n/*";
    assert h == LinesText(lines) by {
      LinesTextSingle("");
      LinesTextSnoc([""], "/*");
      assert [""] + ["/*"] == lines;
    }
    LinesTextSnoc(lines, RuleLine);
    h, lines := h + "\n" + RuleLine, lines + [RuleLine];
    assert h == LinesText(lines);
    LinesTextSnoc(lines, " | Route " + name);
    AppendRegroup(h, "\n", " | Route ", name);
    assert "\n" + " | Route " == "\n | Route ";
    h, lines := h + "\n | Route " + name, lines + [" | Route " + name];
    assert h == LinesText(lines);
    LinesTextSnoc(lines, RuleLine);
    h, lines := h + "\n" + RuleLine, lines + [RuleLine];
    assert lines == ["", "/*", RuleLine, " | Route " + name, RuleLine];
  }

  lemma DescriptionLinesText(description: string)
    ensures LinesText(ContinuedLines(Split('\n', description)) + [" | "]) == "\n | " + Indent(description) + "\n | "
  {
    IndentedLines(description);
    LinesTextSnoc(ContinuedLines(Split('\n', description)), " | ");
  }

  lemma TailLines(head: string, lines: seq<string>, timestamp: string)
    requires head == LinesText(lines)
    ensures head + "\n | generated at: " + timestamp + "\n |" + "\n */"
      == LinesText(lines + [" | generated at: " + timestamp, " |", " */"])
  {
    var l1, l2, l3 := " | generated at: " + timestamp, " |", " */";
    var h1 := head + ("\n" + l1);
    var h2 := h1 + ("\n" + l2);
    var h3 := h2 + ("\n" + l3);
    assert head + "\n | generated at: " + timestamp == h1 by {
      ConcatAssoc("\n", " | generated at: ", timestamp);
      assert "\n" + " | generated at: " == "\n | generated at: ";
      ConcatAssoc(head, "\n | generated at: ", timestamp);
    }
    assert h1 + "\n |" + "\n */" == h3 by {
      assert "\n" + l2 == "\n |" && "\n" + l3 == "\n */";
    }
    assert h3 == LinesText(lines + [l1, l2, l3]) by {
      LinesTextExtend(head, lines, l1);
      LinesTextExtend(h1, lines + [l1], l2);
      LinesTextExtend(h2, lines + [l1] + [l2], l3);
      assert lines + [l1] + [l2] + [l3] == lines + [l1, l2, l3];
    }
  }

  /** One more line appended to the text of some lines. */
  lemma LinesTextExtend(h: string, lines: seq<string>, line: string)
    requires h == LinesText(lines)
    ensures h + ("\n" + line) == LinesText(lines + [line])
  {
    LinesTextSnoc(lines, line);
    ConcatAssoc(h, "\n", line);
  }

  /**
   * The comment block, read line by line: two blank lines, the comment
   * opener, the route's name between two rules, each description line
   * continuing the comment followed by an empty continuation, the time of
   * generation, and the closing line.
   */
  lemma CommentHeaderLines(route: Route, timestamp: string)
    requires '\n' !in timestamp
    requires route.action.name.Some? ==> '\n' !in route.action.name.value
    ensures Split('\n', CommentHeader(route, timestamp)) == CommentLines(route, timestamp)
  {
    var body := CommentBody(route, timestamp);
    CommentHeaderText(route, timestamp);
    CommentBodyPlain(route, timestamp);
    AppendEmpty(LinesText(body));
    SplitLinesText("", body);
  }

  /** The comment is its body lines, each after a line break. */
  lemma CommentHeaderText(route: Route, timestamp: string)
    ensures CommentHeader(route, timestamp) == LinesText(CommentBody(route, timestamp))
  {
    var name := NameText(route.action);
    var hasDescription := !IsEmptyString(route.description);
    var top := ["", "/*", RuleLine, " | Route " + name, RuleLine];
    var middle := if hasDescription then ContinuedLines(Split('\n', route.description)) + [" | "] else [];
    var bottom := [" | generated at: " + timestamp, " |", " */"];
    var head := "\n\n/*" + "\n" + RuleLine + "\n | Route " + name + "\n" + RuleLine;
    var description := if hasDescription then "\n | " + Indent(route.description) + "\n | " else "";
    HeadLines(name);
    if hasDescription {
      DescriptionLinesText(route.description);
    }
    LinesTextConcat(top, middle);
    assert head + description == LinesText(top + middle);
    TailLines(head + description, top + middle, timestamp);
    assert CommentHeader(route, timestamp) == LinesText(top + middle + bottom);
    assert CommentBody(route, timestamp) == top + middle + bottom;
  }

  /** The text the command appends for one route. */
  function RenderRoute(route: Route, noComment: bool, timestamp: string): string
  {
    var statement := RouteStatement(route);
    if noComment then "\n" + statement else CommentHeader(route, timestamp) + statement
  }

  /** `generateStandartRoute`: the route file with the rendered route appended. */
  function GenerateStandartRoute(file: string, route: Route, noComment: bool, timestamp: string): (updated: string)
    ensures |updated| > |file| && updated[..|file|] == file
    ensures updated[|updated| - 1] == ';'
  {
    file + RenderRoute(route, noComment, timestamp)
  }

  /**
   * Without a comment the block is a blank line and the statement, and the
   * clock plays no part; with one it opens with two blank lines and the
   * comment opener.
   */
  lemma RenderRouteStart(route: Route, timestamp: string, other: string)
    ensures RenderRoute(route, true, timestamp) == RenderRoute(route, true, other)
    ensures |RenderRoute(route, true, timestamp)| > 9 && RenderRoute(route, true, timestamp)[..9] == "\n\nRoute::"
    ensures |RenderRoute(route, false, timestamp)| > 4 && RenderRoute(route, false, timestamp)[..4] == "\n\n/*"
  {
    PlainRouteStart(route, timestamp);
    CommentedRouteStart(route, timestamp);
  }

  lemma PlainRouteStart(route: Route, timestamp: string)
    ensures |RenderRoute(route, true, timestamp)| > 9 && RenderRoute(route, true, timestamp)[..9] == "\n\nRoute::"
  {
    var st := RouteStatement(route);
    RouteStatementShape(route);
    var n := RenderRoute(route, true, timestamp);
    assert n == "\n" + st;
    assert n[..9] == "\n" + st[..8];
  }

  lemma CommentedRouteStart(route: Route, timestamp: string)
    ensures |RenderRoute(route, false, timestamp)| > 4 && RenderRoute(route, false, timestamp)[..4] == "\n\n/*"
  {
    var st := RouteStatement(route);
    RouteStatementShape(route);
    var h := CommentHeader(route, timestamp);
    CommentHeaderStart(route, timestamp);
    var c := RenderRoute(route, false, timestamp);
    assert c == h + st;
    assert c[..4] == h[..4];
  }

  lemma CommentHeaderStart(route: Route, timestamp: string)
    ensures |CommentHeader(route, timestamp)| >= 4 && CommentHeader(route, timestamp)[..4] == "\n\n/*"
  {
    var body := CommentBody(route, timestamp);
    CommentHeaderText(route, timestamp);
    assert body[0] == "" && body[1] == "/*";
    LinesTextOpener(body);
  }

  lemma LinesTextOpener(lines: seq<string>)
    requires |lines| >= 2 && lines[0] == "" && lines[1] == "/*"
    ensures |LinesText(lines)| >= 4 && LinesText(lines)[..4] == "\n\n/*"
  {
    var rest := LinesText(lines[2..]);
    assert lines[1..][1..] == lines[2..];
    assert LinesText(lines[1..]) == "\n" + "/*" + rest;
    assert LinesText(lines) == "\n" + "" + ("\n" + "/*" + rest);
    assert LinesText(lines) == "\n\n/*" + rest;
  }

  // ---------------------------------------------------------------------
  // fire

  datatype CommandError = RouteFileMissing | ControllerNotAnnotated(controller: string)

  /** The new route file text and the progress lines written to the console. */
  datatype Standardized = Standardized(routeFile: string, report: seq<string>)

  /** The `controller` argument counts when given and truthy in PHP's sense. */
  predicate ControllerGiven(controller: Option<string>)
  {
    controller.Some? && !IsEmptyString(controller.value)
  }

  function ReportLine(route: Route): string
  {
    "+ Route " + Join("|", route.methods) + " " + route.uri
  }

  /** The text appended for the routes, in order. */
  function RenderAll(routes: seq<Route>, noComment: bool, timestamp: string): string
  {
    if routes == [] then ""
    else RenderAll(routes[..|routes| - 1], noComment, timestamp) + RenderRoute(routes[|routes| - 1], noComment, timestamp)
  }

  function Reports(routes: seq<Route>): seq<string>
  {
    if routes == [] then [] else Reports(routes[..|routes| - 1]) + [ReportLine(routes[|routes| - 1])]
  }

  lemma EmittedStep(routes: seq<Route>, i: nat, standardIds: seq<string>)
    requires i < |routes|
    ensures Emitted(routes[..i + 1], standardIds)
      == Emitted(routes[..i], standardIds) + (if RouteIdentity(routes[i]) in standardIds then [] else [routes[i]])
  {
    assert routes[..i + 1][..i] == routes[..i];
  }

  lemma RenderedStep(routes: seq<Route>, route: Route, noComment: bool, timestamp: string)
    ensures RenderAll(routes + [route], noComment, timestamp) == RenderAll(routes, noComment, timestamp) + RenderRoute(route, noComment, timestamp)
    ensures Reports(routes + [route]) == Reports(routes) + [ReportLine(route)]
  {
    assert (routes + [route])[..|routes|] == routes;
  }

  /**
   * `fire`: a missing route file fails before anything else; a named
   * controller that is not a registry key fails before anything is
   * appended; otherwise every annotated route is rendered and appended to
   * the file's old text, in registry order.
   */
  method Fire(annotator: RouteAnnotator, appRoutes: seq<Route>, routeFile: Option<string>,
              controller: Option<string>, noComment: bool, timestamp: string)
    returns (result: Result<Standardized, CommandError>)
    requires annotator.Valid()
    ensures routeFile.None? ==> result == Failure(RouteFileMissing)
    ensures routeFile.Some? && ControllerGiven(controller) && !annotator.HasAnnotate(controller.value) ==>
      result == Failure(ControllerNotAnnotated(controller.value))
    ensures routeFile.Some? && ControllerGiven(controller) && !InControllerNamespace(controller.value) ==>
      result == Failure(ControllerNotAnnotated(controller.value))
    ensures routeFile.Some? && !(ControllerGiven(controller) && !annotator.HasAnnotate(controller.value)) ==>
      var routes := AllRoutes(annotator.annotatedControllers);
      result == Success(Standardized(routeFile.value + RenderAll(routes, noComment, timestamp), Reports(routes)))
  {
    if routeFile.None? {
      return Failure(RouteFileMissing);
    }
    var controllers := if ControllerGiven(controller) then [controller.value] else annotator.GetAnnotatedControllers();
    if ControllerGiven(controller) && !annotator.HasAnnotate(controller.value) {
      return Failure(ControllerNotAnnotated(controller.value));
    }
    var annotatedRoutes := annotator.GetAnnotatedRoutes(controllers);
    var annotatedIds := GetRouteIdentities(annotatedRoutes);
    var appIds := GetRouteIdentities(appRoutes);
    var standardIds := ArrayDiff(appIds, annotatedIds);

    var file := routeFile.value;
    var report := [];
    for i := 0 to |annotatedRoutes|
      invariant file == routeFile.value + RenderAll(Emitted(annotatedRoutes[..i], standardIds), noComment, timestamp)
      invariant report == Reports(Emitted(annotatedRoutes[..i], standardIds))
    {
      var route := annotatedRoutes[i];
      var routeId := RouteIdentity(route);
      ghost var emitted := Emitted(annotatedRoutes[..i], standardIds);
      EmittedStep(annotatedRoutes, i, standardIds);
      if routeId in standardIds {
        assert Emitted(annotatedRoutes[..i + 1], standardIds) == emitted;
        continue;
      }
      assert Emitted(annotatedRoutes[..i + 1], standardIds) == emitted + [route];
      RenderedStep(emitted, route, noComment, timestamp);
      ConcatAssoc(routeFile.value, RenderAll(emitted, noComment, timestamp), RenderRoute(route, noComment, timestamp));
      file := GenerateStandartRoute(file, route, noComment, timestamp);
      report := report + [ReportLine(route)];
    }
    assert annotatedRoutes[..|annotatedRoutes|] == annotatedRoutes;
    NoAnnotatedRouteSkipped(annotatedRoutes, annotatedIds, appIds);
    result := Success(Standardized(file, report));
  }
}
