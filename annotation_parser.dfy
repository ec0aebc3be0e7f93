/**
 * The doc-comment mini grammar of `RouteAnnotator::parseMethodAnnotation`.
 * The four regular expressions of the source are written out as leftmost,
 * non-overlapping scanners with the backtracking PCRE would do.
 */
module AnnotationParser {
  import opened Wrappers
  import opened PhpStrings
  import opened PhpArray

  /** Parameter name to constraint pattern, in insertion order (a PHP array). */
  type Conditions = OrderedMap<string>

  datatype Tag = Tag(name: string, value: string)

  /** The route record `parseMethodAnnotation` returns when the comment declares a route. */
  datatype RouteData = RouteData(
    methods: seq<string>,
    uri: Option<string>,        // None: the @route value has no space (PHP leaves it null)
    name: Option<string>,
    conditions: Conditions,
    middleware: seq<string>,
    description: string)

  predicate NotNewline(c: char) { c != '\n' }

  predicate NotSpace(c: char) { c != ' ' }

  /** End of the run of characters of `s` satisfying `p` that starts at `i`. */
  function SpanEnd(s: string, i: nat, p: char -> bool): (e: nat)
    requires i <= |s|
    ensures i <= e <= |s|
    ensures forall k :: i <= k < e ==> p(s[k])
    ensures e == |s| || !p(s[e])
    decreases |s| - i
  {
    if i == |s| || !p(s[i]) then i else SpanEnd(s, i + 1, p)
  }

  /** Where a greedy `[^\n]*` starting at `i` stops. */
  function LineEnd(s: string, i: nat): (e: nat)
    requires i <= |s|
    ensures i <= e <= |s|
    ensures forall k :: i <= k < e ==> s[k] != '\n'
    ensures e == |s| || s[e] == '\n'
  {
    SpanEnd(s, i, NotNewline)
  }

  // ---------------------------------------------------------------------
  // `\* (?<desc>[a-zA-Z0-9][^\n]+)` with preg_match_all

  predicate DescriptionStartsAt(doc: string, i: nat)
  {
    i + 3 < |doc| && doc[i] == '*' && doc[i + 1] == ' ' && IsAlnum(doc[i + 2]) && doc[i + 3] != '\n'
  }

  function DescriptionLinesFrom(doc: string, i: nat): (lines: seq<string>)
    requires i <= |doc|
    ensures forall d :: d in lines ==> |d| >= 2 && IsAlnum(d[0]) && '\n' !in d
    decreases |doc| - i
  {
    if i == |doc| then []
    else if DescriptionStartsAt(doc, i) then
      var e := LineEnd(doc, i + 3);
      var d := doc[i + 2..e];
      assert forall k :: 0 <= k < |d| ==> d[k] == doc[i + 2 + k];
      [d] + DescriptionLinesFrom(doc, e)
    else DescriptionLinesFrom(doc, i + 1)
  }

  /**
   * `d` is a match of the description pattern in `doc` that starts at `i`
   * and ends at `e`: `* `, then a letter or digit and the rest of its line.
   */
  predicate DescriptionMatch(doc: string, i: nat, d: string, e: nat)
  {
    i + 2 + |d| == e <= |doc| && doc[i..i + 2] == "* " && doc[i + 2..e] == d
    && |d| >= 2 && IsAlnum(d[0]) && '\n' !in d
    && (e == |doc| || doc[e] == '\n')
  }

  /** Each span ends no later than the next one starts. */
  predicate InOrder(spans: seq<(nat, nat)>)
  {
    forall n :: 0 < n < |spans| ==> spans[n - 1].1 <= spans[n].0
  }

  /** Index `k` lies inside one of the spans. */
  predicate Covers(spans: seq<(nat, nat)>, k: nat)
  {
    exists n :: 0 <= n < |spans| && spans[n].0 <= k < spans[n].1
  }

  /** Putting a span in front that ends before the rest begin keeps them in order. */
  lemma InOrderCons(i: nat, e: nat, rest: seq<(nat, nat)>)
    requires InOrder(rest)
    requires forall n :: 0 <= n < |rest| ==> e <= rest[n].0
    ensures InOrder([(i, e)] + rest)
  {
    var spans := [(i, e)] + rest;
    forall n | 0 < n < |spans|
      ensures spans[n - 1].1 <= spans[n].0
    {
      if n == 1 {
        assert spans[1] == rest[0];
      } else {
        assert spans[n - 1] == rest[n - 2] && spans[n] == rest[n - 1];
      }
    }
  }

  /** What the rest covers, the rest with a span in front covers too. */
  lemma CoversCons(span: (nat, nat), rest: seq<(nat, nat)>, k: nat)
    requires Covers(rest, k)
    ensures Covers([span] + rest, k)
  {
    var n :| 0 <= n < |rest| && rest[n].0 <= k < rest[n].1;
    assert ([span] + rest)[n + 1] == rest[n];
  }

  /** Where each match of the scan from `i` starts and ends, as an offset capture reports them. */
  function DescriptionSpans(doc: string, i: nat): (spans: seq<(nat, nat)>)
    requires i <= |doc|
    ensures |spans| == |DescriptionLinesFrom(doc, i)|
    ensures forall n :: 0 <= n < |spans| ==> i <= spans[n].0 < spans[n].1 <= |doc|
    decreases |doc| - i
  {
    if i == |doc| then []
    else if DescriptionStartsAt(doc, i) then [(i, LineEnd(doc, i + 3))] + DescriptionSpans(doc, LineEnd(doc, i + 3))
    else DescriptionSpans(doc, i + 1)
  }

  /** One step of the description scan from `i`: a match ending at `next`, or none and the scan moves on by one. */
  lemma DescriptionScanStep(doc: string, i: nat) returns (d: Option<string>, next: nat)
    requires i < |doc|
    ensures i < next <= |doc|
    ensures d.Some? ==> (DescriptionMatch(doc, i, d.value, next)
      && DescriptionLinesFrom(doc, i) == [d.value] + DescriptionLinesFrom(doc, next)
      && DescriptionSpans(doc, i) == [(i, next)] + DescriptionSpans(doc, next))
    ensures d.None? ==> (next == i + 1 && !DescriptionStartsAt(doc, i)
      && DescriptionLinesFrom(doc, i) == DescriptionLinesFrom(doc, next)
      && DescriptionSpans(doc, i) == DescriptionSpans(doc, next))
  {
    if DescriptionStartsAt(doc, i) {
      next := LineEnd(doc, i + 3);
      d := Some(doc[i + 2..next]);
    } else {
      d, next := None, i + 1;
    }
  }

  /** Each line is matched in the comment where its span says. */
  predicate DescriptionsAt(doc: string, spans: seq<(nat, nat)>, lines: seq<string>)
  {
    |spans| == |lines| && forall n :: 0 <= n < |spans| ==> DescriptionMatch(doc, spans[n].0, lines[n], spans[n].1)
  }

  lemma DescriptionsAtCons(doc: string, span: (nat, nat), d: string, spans: seq<(nat, nat)>, lines: seq<string>)
    requires DescriptionMatch(doc, span.0, d, span.1) && DescriptionsAt(doc, spans, lines)
    ensures DescriptionsAt(doc, [span] + spans, [d] + lines)
  {
    forall n | 0 < n < |spans| + 1
      ensures DescriptionMatch(doc, ([span] + spans)[n].0, ([d] + lines)[n], ([span] + spans)[n].1)
    {
      assert ([span] + spans)[n] == spans[n - 1] && ([d] + lines)[n] == lines[n - 1];
    }
  }

  /** Every captured line is really in the comment, where its span says. */
  lemma {:induction false} DescriptionSpansMatch(doc: string, i: nat)
    requires i <= |doc|
    ensures DescriptionsAt(doc, DescriptionSpans(doc, i), DescriptionLinesFrom(doc, i))
    decreases |doc| - i
  {
    if i < |doc| {
      var d, next := DescriptionScanStep(doc, i);
      DescriptionSpansMatch(doc, next);
      if d.Some? {
        DescriptionsAtCons(doc, (i, next), d.value, DescriptionSpans(doc, next), DescriptionLinesFrom(doc, next));
      }
    }
  }

  /** The matches follow one another without overlapping. */
  lemma {:induction false} DescriptionSpansOrdered(doc: string, i: nat)
    requires i <= |doc|
    ensures InOrder(DescriptionSpans(doc, i))
    decreases |doc| - i
  {
    if i < |doc| {
      var d, next := DescriptionScanStep(doc, i);
      DescriptionSpansOrdered(doc, next);
      if d.Some? {
        InOrderCons(i, next, DescriptionSpans(doc, next));
      }
    }
  }

  /** Nothing is missed: every place from `i` on where the pattern could start lies inside a match. */
  lemma {:induction false} DescriptionSpansCover(doc: string, i: nat, k: nat)
    requires i <= k && DescriptionStartsAt(doc, k)
    ensures Covers(DescriptionSpans(doc, i), k)
    decreases |doc| - i
  {
    var d, next := DescriptionScanStep(doc, i);
    if d.Some? {
      if k < next {
        assert DescriptionSpans(doc, i)[0] == (i, next);
      } else {
        DescriptionSpansCover(doc, next, k);
        CoversCons((i, next), DescriptionSpans(doc, next), k);
      }
    } else {
      DescriptionSpansCover(doc, next, k);
    }
  }

  /**
   * `DescriptionLines` in the comment's own terms: the n-th line is matched
   * at the n-th span, the spans come in order, and every place where the
   * pattern could start lies inside one of them.
   */
  lemma DescriptionLinesInText(doc: string)
    ensures DescriptionsAt(doc, DescriptionSpans(doc, 0), DescriptionLines(doc))
    ensures InOrder(DescriptionSpans(doc, 0))
    ensures forall k: nat :: DescriptionStartsAt(doc, k) ==> Covers(DescriptionSpans(doc, 0), k)
  {
    DescriptionSpansMatch(doc, 0);
    DescriptionSpansOrdered(doc, 0);
    forall k: nat | DescriptionStartsAt(doc, k)
      ensures Covers(DescriptionSpans(doc, 0), k)
    {
      DescriptionSpansCover(doc, 0, k);
    }
  }

  /**
   * The captured description lines, in order. Each starts with a letter or
   * digit, so a `* @tag` line never contributes.
   */
  function DescriptionLines(doc: string): (lines: seq<string>)
    ensures forall d :: d in lines ==> |d| >= 2 && IsAlnum(d[0]) && d[0] != '@' && '\n' !in d
  {
    DescriptionLinesFrom(doc, 0)
  }

  // ---------------------------------------------------------------------
  // `\* \@(?<name>[a-zA-Z]+)([ \t]+)(?<value>[^\n]+)` with preg_match_all

  /**
   * `t` is a match of the tag pattern in `doc` that starts at `i` and ends
   * at `e`: `* @`, the name, at least one blank (so the name is the whole
   * letter run), then the value up to the end of its line. The blank run is
   * greedy: the value starts with a blank only when it is the one blank
   * given back at the end of a line.
   */
  predicate TagMatch(doc: string, i: nat, t: Tag, e: nat)
  {
    var a := i + 3 + |t.name|;
    var b := e - |t.value|;
    a < b <= e <= |doc|
    && doc[i..i + 3] == "* @" && doc[i + 3..a] == t.name
    && t.name != [] && (forall c :: c in t.name ==> IsAlpha(c))
    && (forall k :: a <= k < b ==> IsBlank(doc[k]))
    && doc[b..e] == t.value && t.value != [] && '\n' !in t.value
    && (!IsBlank(t.value[0]) || |t.value| == 1)
    && (e == |doc| || doc[e] == '\n')
  }

  /**
   * The tag pattern tried at index `i`: the tag and where the match ends.
   * The name is the whole letter run and the blanks the whole blank run;
   * when the line ends right after two or more blanks, PCRE gives the last
   * blank back to the value.
   */
  function TagAt(doc: string, i: nat): (r: Option<(Tag, nat)>)
    requires i <= |doc|
    ensures r.Some? ==> i < r.value.1 <= |doc|
    ensures r.Some? ==> r.value.0.name != [] && forall c :: c in r.value.0.name ==> IsAlpha(c)
    ensures r.Some? ==> r.value.0.value != [] && '\n' !in r.value.0.value
  {
    if !(i + 3 < |doc| && doc[i] == '*' && doc[i + 1] == ' ' && doc[i + 2] == '@') then None
    else
      var a := SpanEnd(doc, i + 3, IsAlpha);
      var b := SpanEnd(doc, a, IsBlank);
      var e := LineEnd(doc, b);
      var name := doc[i + 3..a];
      assert forall k :: 0 <= k < |name| ==> name[k] == doc[i + 3 + k];
      if a == i + 3 || b == a then None
      else if e > b then
        var value := doc[b..e];
        assert forall k :: 0 <= k < |value| ==> value[k] == doc[b + k];
        Some((Tag(name, value), e))
      else if b - a >= 2 then
        assert IsBlank(doc[b - 1]);
        Some((Tag(name, doc[b - 1..b]), b))
      else None
  }

  /** What the tag pattern captures at `i` is really there in the comment. */
  lemma TagAtMatch(doc: string, i: nat)
    requires i <= |doc|
    ensures TagAt(doc, i).Some? ==> TagMatch(doc, i, TagAt(doc, i).value.0, TagAt(doc, i).value.1)
  {
    if TagAt(doc, i).Some? {
      var a := SpanEnd(doc, i + 3, IsAlpha);
      var b := SpanEnd(doc, a, IsBlank);
      var e := LineEnd(doc, b);
      var t, end := TagAt(doc, i).value.0, TagAt(doc, i).value.1;
      assert doc[i..i + 3] == "* @";
      assert t.name == doc[i + 3..a];
      if e > b {
        assert t.value == doc[b..e] && end == e;
      } else {
        assert t.value == doc[b - 1..b] && end == b;
      }
    }
  }

  function TagsFrom(doc: string, i: nat): (tags: seq<Tag>)
    requires i <= |doc|
    ensures forall t :: t in tags ==> t.name != [] && t.value != [] && '\n' !in t.value
    decreases |doc| - i
  {
    if i == |doc| then []
    else
      match TagAt(doc, i)
      case Some((t, e)) => [t] + TagsFrom(doc, e)
      case None => TagsFrom(doc, i + 1)
  }

  /** Where each match of the scan from `i` starts and ends, as an offset capture reports them. */
  function TagSpans(doc: string, i: nat): (spans: seq<(nat, nat)>)
    requires i <= |doc|
    ensures |spans| == |TagsFrom(doc, i)|
    ensures forall n :: 0 <= n < |spans| ==> i <= spans[n].0 < spans[n].1 <= |doc|
    decreases |doc| - i
  {
    if i == |doc| then []
    else
      match TagAt(doc, i)
      case Some((_, e)) => [(i, e)] + TagSpans(doc, e)
      case None => TagSpans(doc, i + 1)
  }

  /** One step of the tag scan from `i`: a match ending at `next`, or none and the scan moves on by one. */
  lemma TagScanStep(doc: string, i: nat) returns (t: Option<Tag>, next: nat)
    requires i < |doc|
    ensures i < next <= |doc|
    ensures t.Some? ==> (TagMatch(doc, i, t.value, next)
      && TagsFrom(doc, i) == [t.value] + TagsFrom(doc, next)
      && TagSpans(doc, i) == [(i, next)] + TagSpans(doc, next))
    ensures t.None? ==> (next == i + 1 && TagAt(doc, i).None?
      && TagsFrom(doc, i) == TagsFrom(doc, next)
      && TagSpans(doc, i) == TagSpans(doc, next))
  {
    TagAtMatch(doc, i);
    match TagAt(doc, i)
    case Some((tag, e)) =>
      t, next := Some(tag), e;
    case None =>
      t, next := None, i + 1;
  }

  /** Each tag is matched in the comment where its span says. */
  predicate TagsAt(doc: string, spans: seq<(nat, nat)>, tags: seq<Tag>)
  {
    |spans| == |tags| && forall n :: 0 <= n < |spans| ==> TagMatch(doc, spans[n].0, tags[n], spans[n].1)
  }

  lemma TagsAtCons(doc: string, span: (nat, nat), t: Tag, spans: seq<(nat, nat)>, tags: seq<Tag>)
    requires TagMatch(doc, span.0, t, span.1) && TagsAt(doc, spans, tags)
    ensures TagsAt(doc, [span] + spans, [t] + tags)
  {
    forall n | 0 < n < |spans| + 1
      ensures TagMatch(doc, ([span] + spans)[n].0, ([t] + tags)[n], ([span] + spans)[n].1)
    {
      assert ([span] + spans)[n] == spans[n - 1] && ([t] + tags)[n] == tags[n - 1];
    }
  }

  /** Every captured tag is really in the comment, where its span says. */
  lemma {:induction false} TagSpansMatch(doc: string, i: nat)
    requires i <= |doc|
    ensures TagsAt(doc, TagSpans(doc, i), TagsFrom(doc, i))
    decreases |doc| - i
  {
    if i < |doc| {
      var t, next := TagScanStep(doc, i);
      TagSpansMatch(doc, next);
      if t.Some? {
        TagsAtCons(doc, (i, next), t.value, TagSpans(doc, next), TagsFrom(doc, next));
      }
    }
  }

  /** The matches follow one another without overlapping. */
  lemma {:induction false} TagSpansOrdered(doc: string, i: nat)
    requires i <= |doc|
    ensures InOrder(TagSpans(doc, i))
    decreases |doc| - i
  {
    if i < |doc| {
      var t, next := TagScanStep(doc, i);
      TagSpansOrdered(doc, next);
      if t.Some? {
        InOrderCons(i, next, TagSpans(doc, next));
      }
    }
  }

  /** Nothing is missed: every place from `i` on where the pattern matches lies inside a match. */
  lemma {:induction false} TagSpansCover(doc: string, i: nat, k: nat, tag: Tag, end: nat)
    requires i <= k && TagMatch(doc, k, tag, end)
    ensures Covers(TagSpans(doc, i), k)
    decreases |doc| - i
  {
    var t, next := TagScanStep(doc, i);
    if t.Some? {
      if k < next {
        assert TagSpans(doc, i)[0] == (i, next);
      } else {
        TagSpansCover(doc, next, k, tag, end);
        CoversCons((i, next), TagSpans(doc, next), k);
      }
    } else {
      if k == i {
        TagMatchAt(doc, k, tag, end);
        assert false;
      }
      TagSpansCover(doc, next, k, tag, end);
    }
  }

  /** Wherever the tag pattern matches in the text, the scanner finds a tag. */
  lemma TagMatchAt(doc: string, k: nat, t: Tag, e: nat)
    requires TagMatch(doc, k, t, e)
    ensures TagAt(doc, k).Some?
  {
    var a := k + 3 + |t.name|;
    forall j | k + 3 <= j < a ensures IsAlpha(doc[j]) {
      assert doc[j] == t.name[j - (k + 3)];
    }
    SpanEndAt(doc, k + 3, IsAlpha, a);
  }

  /**
   * `Tags` in the comment's own terms: the n-th tag is matched at the n-th
   * span, the spans come in order, and every place where the pattern
   * matches lies inside one of them.
   */
  lemma TagsInText(doc: string)
    ensures TagsAt(doc, TagSpans(doc, 0), Tags(doc))
    ensures InOrder(TagSpans(doc, 0))
    ensures forall k: nat, t: Tag, e: nat :: TagMatch(doc, k, t, e) ==> Covers(TagSpans(doc, 0), k)
  {
    TagSpansMatch(doc, 0);
    TagSpansOrdered(doc, 0);
    forall k: nat, t: Tag, e: nat | TagMatch(doc, k, t, e)
      ensures Covers(TagSpans(doc, 0), k)
    {
      TagSpansCover(doc, 0, k, t, e);
    }
  }

  /** `* @route` and a blank start at `k`. */
  predicate RouteLineAt(doc: string, k: nat)
  {
    k + 9 <= |doc| && doc[k..k + 8] == "* @route" && IsBlank(doc[k + 8])
  }

  /**
   * A comment that parses as a route holds `* @route` followed by a blank:
   * without such a line the method is not a route.
   */
  lemma RouteTagInText(doc: string)
    requires Parse(doc).Some?
    ensures exists k :: RouteLineAt(doc, k)
  {
    var tags := TagsFrom(doc, 0);
    assert exists t :: t in tags && t.name == "route" by {
      ParseNoneIffNoRouteTag(doc);
    }
    var n :| 0 <= n < |tags| && tags[n].name == "route";
    TagSpansMatch(doc, 0);
    var k, e := TagSpans(doc, 0)[n].0, TagSpans(doc, 0)[n].1;
    RouteLineOfTag(doc, k, tags[n], e);
  }

  /** A `route` tag match starts a `* @route` line with a blank after the name. */
  lemma RouteLineOfTag(doc: string, k: nat, t: Tag, e: nat)
    requires TagMatch(doc, k, t, e) && t.name == "route"
    ensures RouteLineAt(doc, k)
  {
    assert doc[k..k + 8] == doc[k..k + 3] + doc[k + 3..k + 8];
  }

  /** Every `* @name<blanks>value` match of the comment, in order. */
  function Tags(doc: string): (tags: seq<Tag>)
    ensures forall t :: t in tags ==> t.name != [] && t.value != [] && '\n' !in t.value
  {
    TagsFrom(doc, 0)
  }

  /** The values of the tags called `name`, in order of appearance. */
  function TagValues(tags: seq<Tag>, name: string): (values: seq<string>)
    ensures |values| <= |tags|
  {
    if tags == [] then []
    else
      var last := tags[|tags| - 1];
      TagValues(tags[..|tags| - 1], name) + (if last.name == name then [last.value] else [])
  }

  /** A tag name has values exactly when some tag carries that name. */
  lemma {:induction false} TagValuesEmpty(tags: seq<Tag>, name: string)
    ensures TagValues(tags, name) == [] <==> forall t :: t in tags ==> t.name != name
  {
    if tags != [] {
      var init := tags[..|tags| - 1];
      TagValuesEmpty(init, name);
      assert tags == init + [tags[|tags| - 1]];
    }
  }

  /** The first value of a tag name is the value of the earliest tag with that name. */
  lemma {:induction false} TagValuesFirst(tags: seq<Tag>, name: string)
    requires TagValues(tags, name) != []
    ensures exists k :: (0 <= k < |tags| && tags[k].name == name
      && (forall j :: 0 <= j < k ==> tags[j].name != name)
      && TagValues(tags, name)[0] == tags[k].value)
  {
    var init := tags[..|tags| - 1];
    var n := |tags| - 1;
    if TagValues(init, name) != [] {
      TagValuesFirst(init, name);
      var k :| 0 <= k < |init| && init[k].name == name
        && (forall j :: 0 <= j < k ==> init[j].name != name)
        && TagValues(init, name)[0] == init[k].value;
      assert tags[k] == init[k];
      assert forall j :: 0 <= j < k ==> tags[j] == init[j];
    } else {
      TagValuesEmpty(init, name);
      assert forall j :: 0 <= j < n ==> tags[j] == init[j] && init[j] in init;
      assert tags[n].name == name;
    }
  }

  // ---------------------------------------------------------------------
  // `\$(?<param>[^ ]+)([ \t]+)?(?<regex>\/.*\/)?` with preg_match, then
  // `preg_replace('/(^\/|\/$)/', '', regex)`

  datatype ParamMatch = ParamMatch(param: string, regex: Option<string>)

  /** The pattern can start at `k`: a `$` followed by something other than a space. */
  predicate ParamCanStart(v: string, k: nat)
  {
    k + 1 < |v| && v[k] == '$' && v[k + 1] != ' '
  }

  /** The leftmost index from `i` on where the pattern can start. */
  function ParamStart(v: string, i: nat): (r: Option<nat>)
    requires i <= |v|
    ensures r.Some? ==> i <= r.value && ParamCanStart(v, r.value)
    ensures r.Some? ==> forall k: nat :: i <= k < r.value ==> !ParamCanStart(v, k)
    ensures r.None? <==> forall k: nat :: i <= k ==> !ParamCanStart(v, k)
    decreases |v| - i
  {
    if i + 1 >= |v| then None
    else if ParamCanStart(v, i) then Some(i)
    else ParamStart(v, i + 1)
  }

  /** The last index in [lo, hi) holding `c`. */
  function LastIndexOf(s: string, c: char, lo: nat, hi: nat): (r: Option<nat>)
    requires lo <= hi <= |s|
    ensures r.Some? ==> lo <= r.value < hi && s[r.value] == c && forall k :: r.value < k < hi ==> s[k] != c
    ensures r.None? ==> forall k :: lo <= k < hi ==> s[k] != c
    decreases hi - lo
  {
    if hi == lo then None
    else if s[hi - 1] == c then Some(hi - 1)
    else LastIndexOf(s, c, lo, hi - 1)
  }

  /** The group `\/.*\/` can match at `w`: a slash there and another later on the same line. */
  predicate HasGroupAt(v: string, w: nat)
  {
    w < |v| && v[w] == '/' && exists j :: w < j < LineEnd(v, w + 1) && v[j] == '/'
  }

  /** `v[w..j + 1]` is the greedy group: it opens at `w` and closes at the line's last slash, `j`. */
  predicate GroupEndsAt(v: string, w: nat, j: nat)
  {
    w < j < |v| && v[w] == '/' && v[j] == '/' && j < LineEnd(v, w + 1)
    && forall k :: j < k < LineEnd(v, w + 1) ==> v[k] != '/'
  }

  /** The optional group `\/.*\/` tried at index `w`: greedy, so it runs to the last slash of the line. */
  function RegexGroupAt(v: string, w: nat): (r: Option<string>)
    requires w <= |v|
    ensures r.Some? ==> |r.value| >= 2 && r.value[0] == '/' && r.value[|r.value| - 1] == '/'
    ensures r.Some? <==> HasGroupAt(v, w)
    ensures r.Some? ==> GroupEndsAt(v, w, w + |r.value| - 1) && r.value == v[w..w + |r.value|]
  {
    if w < |v| && v[w] == '/' then
      var e := LineEnd(v, w + 1);
      match LastIndexOf(v, '/', w + 1, e)
      case None => None
      case Some(j) => Some(v[w..j + 1])
    else None
  }

  /**
   * The `@param` pattern matched against one value. The name runs to the
   * first space (a tab does not stop it); the regex group is optional, so
   * when it cannot match the name alone is reported.
   */
  function MatchParam(v: string): (r: Option<ParamMatch>)
    ensures r.None? <==> ParamStart(v, 0).None?
    ensures r.Some? ==> r.value.param != [] && ' ' !in r.value.param
    ensures r.Some? ==> (var q := ParamStart(v, 0).value; var pe := q + 1 + |r.value.param|;
      pe <= |v| && v[q + 1..pe] == r.value.param && (pe == |v| || v[pe] == ' '))
  {
    match ParamStart(v, 0)
    case None => None
    case Some(q) =>
      var pe := SpanEnd(v, q + 1, NotSpace);
      var w := SpanEnd(v, pe, IsBlank);
      var param := v[q + 1..pe];
      assert forall k :: 0 <= k < |param| ==> param[k] == v[q + 1 + k];
      Some(ParamMatch(param, RegexGroupAt(v, w)))
  }

  /**
   * What the `@param` pattern captures as its `regex` group: after the name
   * and the greedy blanks that follow it, there is a group exactly when a
   * slash opens one there and the line holds another slash; the group is
   * the text from that slash to the line's last slash.
   */
  lemma MatchParamRegex(v: string)
    requires MatchParam(v).Some?
    ensures var q := ParamStart(v, 0).value;
      var pe := q + 1 + |MatchParam(v).value.param|;
      var w := SpanEnd(v, pe, IsBlank);
      var rx := MatchParam(v).value.regex;
      (rx.Some? <==> HasGroupAt(v, w))
      && (rx.Some? ==> GroupEndsAt(v, w, w + |rx.value| - 1) && rx.value == v[w..w + |rx.value|])
  {
    var w := MatchParamGroupStart(v);
    var rx := RegexGroupAt(v, w);
    assert rx.Some? <==> HasGroupAt(v, w);
  }

  /** Where the `@param` pattern tries its `regex` group: after the name and the blanks that follow it. */
  lemma MatchParamGroupStart(v: string) returns (w: nat)
    requires MatchParam(v).Some?
    ensures var q := ParamStart(v, 0).value;
      var pe := q + 1 + |MatchParam(v).value.param|;
      pe <= |v| && w == SpanEnd(v, pe, IsBlank) && MatchParam(v).value.regex == RegexGroupAt(v, w)
  {
    var q := ParamStart(v, 0).value;
    var pe := SpanEnd(v, q + 1, NotSpace);
    assert MatchParam(v).value.param == v[q + 1..pe];
    w := SpanEnd(v, pe, IsBlank);
  }

  /** Removes a leading and a trailing slash (the pattern's delimiters). */
  function StripDelimiters(re: string): (r: string)
    ensures |re| >= 2 && re[0] == '/' && re[|re| - 1] == '/' ==> re == "/" + r + "/"
  {
    var a := if |re| > 0 && re[0] == '/' then 1 else 0;
    var b := if |re| > a && re[|re| - 1] == '/' then |re| - 1 else |re|;
    re[a..b]
  }

  /** `$id<space>/re/` yields the name `id` and, delimiters stripped, the pattern `re`. */
  lemma MatchParamCondition(id: string, blanks: string, re: string)
    requires id != [] && ' ' !in id
    requires blanks != [] && blanks[0] == ' ' && forall c :: c in blanks ==> IsBlank(c)
    requires '\n' !in re
    ensures var m := MatchParam("$" + id + blanks + "/" + re + "/");
      m == Some(ParamMatch(id, Some("/" + re + "/"))) && StripDelimiters(m.value.regex.value) == re
  {
    var v := "$" + id + blanks + "/" + re + "/";
    var pe := |id| + 1;
    var w := pe + |blanks|;
    assert v[0] == '$' && v[pe] == blanks[0] && v[w] == '/' && v[|v| - 1] == '/';
    assert v[1..pe] == id && v[pe..w] == blanks && v[w + 1..|v| - 1] == re && v[w..] == "/" + re + "/" by {
      assert v == "$" + id + blanks + ("/" + re + "/");
    }
    MatchParamAt(v, pe, w);
    StripDelimitersOf(re);
  }

  /**
   * `$`, a name without spaces up to a space at `pe`, blanks up to `w`, and
   * from `w` a slash-delimited rest of the line: the name and the whole
   * delimited rest are matched.
   */
  lemma MatchParamAt(v: string, pe: nat, w: nat)
    requires 1 < pe <= w < |v| - 1
    requires v[0] == '$' && ' ' !in v[1..pe]
    requires v[pe] == ' ' && forall c :: c in v[pe..w] ==> IsBlank(c)
    requires v[w] == '/' && v[|v| - 1] == '/' && '\n' !in v[w + 1..|v| - 1]
    ensures MatchParam(v) == Some(ParamMatch(v[1..pe], Some(v[w..])))
  {
    assert ParamStart(v, 0) == Some(0);
    SpanEndOver(v, 1, pe, NotSpace);
    SpanEndOver(v, pe, w, IsBlank);
    RegexGroupToEnd(v, w);
  }

  /** A run whose characters all satisfy `p` and that `p` does not continue ends where it stops. */
  lemma SpanEndOver(v: string, i: nat, e: nat, p: char -> bool)
    requires i <= e <= |v|
    requires forall c :: c in v[i..e] ==> p(c)
    requires e == |v| || !p(v[e])
    ensures SpanEnd(v, i, p) == e
  {
    forall k | i <= k < e ensures p(v[k]) {
      assert v[k] == v[i..e][k - i];
    }
    SpanEndAt(v, i, p, e);
  }

  /** A slash at `w`, a line without breaks, and a final slash: the group takes all of it. */
  lemma RegexGroupToEnd(v: string, w: nat)
    requires w < |v| - 1 && v[w] == '/' && v[|v| - 1] == '/' && '\n' !in v[w + 1..|v| - 1]
    ensures RegexGroupAt(v, w) == Some(v[w..])
  {
    SpanEndOver(v, w + 1, |v|, NotNewline);
    assert LastIndexOf(v, '/', w + 1, |v|) == Some(|v| - 1);
    assert v[w..|v|] == v[w..];
  }

  lemma StripDelimitersOf(re: string)
    ensures StripDelimiters("/" + re + "/") == re
  {
    var d := "/" + re + "/";
    assert d[1..|d| - 1] == re;
  }

  /** A run that is known to stop at `e` ends there. */
  lemma {:induction false} SpanEndAt(s: string, i: nat, p: char -> bool, e: nat)
    requires i <= e <= |s|
    requires forall k :: i <= k < e ==> p(s[k])
    requires e == |s| || !p(s[e])
    ensures SpanEnd(s, i, p) == e
    decreases e - i
  {
    if i < e {
      SpanEndAt(s, i + 1, p, e);
    }
  }

  /** The conditions the `@param` values build: a later value for the same name overwrites, in place. */
  function ConditionsOf(values: seq<string>): Conditions
  {
    if values == [] then []
    else
      var c := ConditionsOf(values[..|values| - 1]);
      match MatchParam(values[|values| - 1])
      case Some(ParamMatch(p, Some(re))) => Put(c, p, StripDelimiters(re))
      case _ => c
  }

  /** Reference reading of the conditions: the pattern of the last value for `param` that has one. */
  function LastConstraint(values: seq<string>, param: string): Option<string>
  {
    if values == [] then None
    else
      var m := MatchParam(values[|values| - 1]);
      if m.Some? && m.value.param == param && m.value.regex.Some? then Some(StripDelimiters(m.value.regex.value))
      else LastConstraint(values[..|values| - 1], param)
  }

  /** Looking a parameter up in the built conditions finds the last pattern given for it. */
  lemma {:induction false} ConditionsOfLookup(values: seq<string>, param: string)
    ensures Get(ConditionsOf(values), param) == LastConstraint(values, param)
  {
    if values != [] {
      var init := values[..|values| - 1];
      ConditionsOfLookup(init, param);
      var m := MatchParam(values[|values| - 1]);
      if m.Some? && m.value.regex.Some? {
        GetPut(ConditionsOf(init), m.value.param, StripDelimiters(m.value.regex.value), param);
      }
    }
  }

  /** The built conditions never hold a parameter twice. */
  lemma {:induction false} ConditionsOfDistinct(values: seq<string>)
    ensures DistinctKeys(ConditionsOf(values))
  {
    if values != [] {
      var init := values[..|values| - 1];
      ConditionsOfDistinct(init);
      var m := MatchParam(values[|values| - 1]);
      if m.Some? && m.value.regex.Some? {
        PutDistinct(ConditionsOf(init), m.value.param, StripDelimiters(m.value.regex.value));
      }
    }
  }

  // ---------------------------------------------------------------------
  // parseMethodAnnotation

  /** What `parseMethodAnnotation` returns for one doc comment; None is PHP's NULL. */
  function Parse(doc: string): (r: Option<RouteData>)
  {
    var tags := Tags(doc);
    var routes := TagValues(tags, "route");
    if routes == [] then None
    else
      var (methods, uri) := SplitOnce(' ', routes[0]);
      var names := TagValues(tags, "name");
      Some(RouteData(
        methods := Split('|', methods),
        uri := uri,
        name := if names == [] then None else Some(names[0]),
        conditions := ConditionsOf(TagValues(tags, "param")),
        middleware := TagValues(tags, "middleware"),
        description := Join("\n", DescriptionLines(doc))))
  }

  /** A comment without any `* @route<blanks>value` match is not a route at all. */
  lemma ParseNoneIffNoRouteTag(doc: string)
    ensures Parse(doc).None? <==> forall t :: t in Tags(doc) ==> t.name != "route"
  {
    TagValuesEmpty(Tags(doc), "route");
  }

  /**
   * Only the earliest `@route` tag counts, and its value is exactly the
   * methods joined with `|`, then, when there is one, a space and the uri.
   * No method token holds a `|` or a space.
   */
  lemma ParseRouteValue(doc: string)
    requires Parse(doc).Some?
    ensures var d := Parse(doc).value;
      exists k :: (0 <= k < |Tags(doc)| && Tags(doc)[k].name == "route"
        && (forall j :: 0 <= j < k ==> Tags(doc)[j].name != "route")
        && Tags(doc)[k].value == Join("|", d.methods) + (if d.uri.Some? then " " + d.uri.value else ""))
    ensures var d := Parse(doc).value;
      |d.methods| >= 1 && forall m :: m in d.methods ==> '|' !in m && ' ' !in m
  {
    var tags := Tags(doc);
    TagValuesFirst(tags, "route");
    RouteValueRoundTrip(TagValues(tags, "route")[0]);
  }

  /** Splitting a `@route` value and joining it back gives the value. */
  lemma RouteValueRoundTrip(v: string)
    ensures var (methods, uri) := SplitOnce(' ', v);
      v == Join("|", Split('|', methods)) + (if uri.Some? then " " + uri.value else "")
    ensures var (methods, uri) := SplitOnce(' ', v);
      forall m :: m in Split('|', methods) ==> '|' !in m && ' ' !in m
  {
    var (methods, uri) := SplitOnce(' ', v);
    JoinSplit('|', methods);
    SplitAbsent('|', methods, ' ');
  }

  /** The name is the first `@name` value; the middleware list is every `@middleware` value. */
  lemma ParseNameAndMiddleware(doc: string)
    requires Parse(doc).Some?
    ensures var d := Parse(doc).value;
      (d.name.None? <==> forall t :: t in Tags(doc) ==> t.name != "name")
      && (d.name.Some? ==> exists k :: (0 <= k < |Tags(doc)| && Tags(doc)[k] == Tag("name", d.name.value)
            && forall j :: 0 <= j < k ==> Tags(doc)[j].name != "name"))
    ensures var d := Parse(doc).value;
      |d.middleware| <= |Tags(doc)| && (d.middleware == [] <==> forall t :: t in Tags(doc) ==> t.name != "middleware")
  {
    var tags := Tags(doc);
    TagValuesEmpty(tags, "name");
    TagValuesEmpty(tags, "middleware");
    if TagValues(tags, "name") != [] {
      TagValuesFirst(tags, "name");
    }
  }

  /** Each condition is the last pattern given for its parameter, and no parameter appears twice. */
  lemma ParseConditions(doc: string, param: string)
    requires Parse(doc).Some?
    ensures var d := Parse(doc).value;
      Get(d.conditions, param) == LastConstraint(TagValues(Tags(doc), "param"), param)
      && DistinctKeys(d.conditions)
  {
    ConditionsOfLookup(TagValues(Tags(doc), "param"), param);
    ConditionsOfDistinct(TagValues(Tags(doc), "param"));
  }

  // ---------------------------------------------------------------------
  // The loops of parseMethodAnnotation

  /** Groups the tag values by tag name, in order of appearance (the `$annotations` array). */
  method GroupAnnotations(tags: seq<Tag>) returns (annotations: map<string, seq<string>>)
    ensures forall name :: name in annotations <==> TagValues(tags, name) != []
    ensures forall name :: name in annotations ==> annotations[name] == TagValues(tags, name)
  {
    annotations := map[];
    for i := 0 to |tags|
      invariant forall name :: name in annotations <==> TagValues(tags[..i], name) != []
      invariant forall name :: name in annotations ==> annotations[name] == TagValues(tags[..i], name)
    {
      assert tags[..i + 1][..i] == tags[..i];
      var name, value := tags[i].name, tags[i].value;
      if name !in annotations {
        annotations := annotations[name := []];
      }
      annotations := annotations[name := annotations[name] + [value]];
    }
    assert tags[..|tags|] == tags;
  }

  /** Builds the conditions from the `@param` values. */
  method BuildConditions(values: seq<string>) returns (conditions: Conditions)
    ensures conditions == ConditionsOf(values)
  {
    conditions := [];
    for i := 0 to |values|
      invariant conditions == ConditionsOf(values[..i])
    {
      assert values[..i + 1][..i] == values[..i];
      var m := MatchParam(values[i]);
      if m.Some? && m.value.regex.Some? {
        conditions := Put(conditions, m.value.param, StripDelimiters(m.value.regex.value));
      }
    }
    assert values[..|values|] == values;
  }

  /** `parseMethodAnnotation` on the method's doc comment. */
  method ParseMethodAnnotation(doc: string) returns (data: Option<RouteData>)
    ensures data == Parse(doc)
  {
    var description := Join("\n", DescriptionLines(doc));
    var tags := Tags(doc);
    var annotations := GroupAnnotations(tags);
    if "route" !in annotations {
      return None;
    }
    var (methods, uri) := SplitOnce(' ', annotations["route"][0]);
    var name := if "name" in annotations then Some(annotations["name"][0]) else None;
    var middleware := if "middleware" in annotations then annotations["middleware"] else [];
    var conditions := [];
    if "param" in annotations {
      conditions := BuildConditions(annotations["param"]);
    }
    data := Some(RouteData(Split('|', methods), uri, name, conditions, middleware, description));
  }
}
