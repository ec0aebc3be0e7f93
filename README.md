# route-annotation in Dafny

A Dafny model of the two pieces of logic at the heart of the Laravel
package `emsifa/route-annotation`.

- **`RouteAnnotator`** reads the doc comment of every method of a
  controller class and turns each `@route` annotation into a route. The
  tags are `@route`, `@name`, `@middleware`, `@param $x /re/` and the
  free-text description lines. The annotator registers each route with
  the router. It keeps an ordered registry from resolved controller class
  to the routes of that class.
- **`route:standarize`** (`StandarizeRouteCommand`) turns the annotated
  routes into ordinary `Route::get(...)` / `Route::match(...)`
  statements. It adds `->where` clauses and an optional boxed comment,
  and appends the statements to the route file.

Modules, one concern each:

| file | module | what it holds |
|---|---|---|
| `wrappers.dfy` | `Wrappers` | `Option`, `Result` |
| `php_strings.dfy` | `PhpStrings` | the PHP string functions the code relies on: `implode`, `explode` (with and without a limit of 2), `ltrim`, `strtolower`, `str_replace`, and `empty()` on strings, where `"0"` is empty |
| `php_array.dfy` | `PhpArray` | a PHP array with string keys, as an ordered association list; assigning to an existing key keeps its position; also the list concatenation helpers (`FlatMap`) |
| `annotation_parser.dfy` | `AnnotationParser` | the four regular expressions as hand-written leftmost scanners, a specification `Parse` of `parseMethodAnnotation`, and the loop-based method proved equal to it |
| `routes.dfy` | `Routes` | the route, action and router values the core touches |
| `route_annotator.dfy` | `RouteAnnotation` | `resolveController`, the action built in `makeAndRegisterRoute`, and the class `RouteAnnotator` with its registry |
| `standarize_route.dfy` | `StandarizeRoute` | route identity, `array_diff`, the renderer of `generateStandartRoute`, and `fire` |

External inputs:

- The router's compiled pattern is an opaque function carried by the `Router` value.
- Reflection's method list is a map from class name to `(name, doc comment)` pairs.
- The route file is an optional string; `None` means the file does not exist.
- The time of generation is a parameter.

Where the code does not do what its names and parameters suggest, the model follows the code:

- `resolveController` always prefixes `App\Http\Controllers\`, even to a name that is already absolute. It first strips the name's leading backslashes.
- `getAnnotatedRoutes` tests a variable that is never defined, so it always returns every controller's routes. It never uses only the controllers it was given.

Further quirks the model keeps:

- `annotated_controllers` is keyed by the resolved class name. The command's `hasAnnotate` check receives the name exactly as typed. The route's `uses` is built from the unresolved name too.
- `fire` removes every annotated identity from the application's identities. Its skip test can therefore never succeed: every annotated route is emitted.

## Model

| member | source | states |
|---|---|---|
| PhpStrings.Split | RouteAnnotator.php:152 | `explode` yields at least one part and no part contains the separator |
| PhpStrings.JoinSplit | RouteAnnotator.php:150-152 | imploding what `explode` returned gives back the original string |
| PhpStrings.SplitJoin | Commands/StandarizeRouteCommand.php:111 | exploding an implode of a non-empty list of separator-free strings gives back the list |
| PhpStrings.SplitAbsent | RouteAnnotator.php:150-152 | a character absent from a string is absent from every part of its explode |
| PhpStrings.SplitOnce | RouteAnnotator.php:150 | `explode(' ', v, 2)`: the head has no space; the tail is absent exactly when `v` has no space, and then the head is `v`; otherwise `v` is head, space, tail |
| PhpStrings.SplitAt | RouteAnnotator.php:152 | the text before the first separator is the first part, and the rest is exploded on its own |
| PhpStrings.TrimLeading | RouteAnnotator.php:216 | `ltrim(s, c)` is a suffix of `s`; it does not start with `c`; everything removed was `c` |
| PhpStrings.RemoveAllAbsent | Commands/StandarizeRouteCommand.php:150 | `str_replace` leaves a string with no occurrence of the pattern unchanged |
| PhpStrings.RemoveAllLeading | Commands/StandarizeRouteCommand.php:150 | a leading occurrence of the pattern is removed, and the rest is processed on its own |
| PhpStrings.UnindentIndent | Commands/StandarizeRouteCommand.php:195 | indenting the description loses nothing: turning each inserted margin back into a bare line break recovers it |
| PhpStrings.IndentContinuesComment | Commands/StandarizeRouteCommand.php:195 | every line break of the indented description is followed by the comment margin (a space, a bar, a space) |
| PhpStrings.IndentAppend | Commands/StandarizeRouteCommand.php:195 | indenting a concatenation indents each piece |
| PhpStrings.IndentPlain | Commands/StandarizeRouteCommand.php:195 | text without a line break is not changed by indenting |
| PhpArray.GetFound | RouteAnnotator.php:44 | `array_key_exists` holds exactly for the listed keys |
| PhpArray.GetPut | RouteAnnotator.php:105 | after `m[k] = v`, `k` holds `v` and every other key keeps its value |
| PhpArray.KeysPut | RouteAnnotator.php:105 | the keys `array_keys` lists after an assignment: an existing key stays in place, a new key is appended last, so keys are listed in insertion order |
| PhpArray.PutDistinct | RouteAnnotator.php:105 | assignment keeps keys distinct |
| PhpArray.GetAt | RouteAnnotator.php:62-64 | with distinct keys, looking up the i-th key finds the i-th value |
| PhpArray.PutPut | RouteAnnotator.php:105 | assigning twice to a key equals assigning only the second value |
| AnnotationParser.DescriptionLines | RouteAnnotator.php:127-128 | every captured description line has at least two characters, begins with a letter or digit (never `@`, so tag lines never contribute) and has no line break |
| AnnotationParser.DescriptionSpansMatch | RouteAnnotator.php:127-128 | each captured line stands in the comment at its span: `* `, then the line, which runs to the end of its line |
| AnnotationParser.DescriptionSpansOrdered | RouteAnnotator.php:127-128 | the matches come in text order and do not overlap |
| AnnotationParser.DescriptionSpansCover | RouteAnnotator.php:127-128 | every place from the scan start where the pattern could begin lies inside one of the matches, so no description line is missed |
| AnnotationParser.DescriptionLinesInText | RouteAnnotator.php:127-128 | over the whole comment: the n-th description line is found at the n-th span, the spans are in order, and they cover every place the pattern could start |
| AnnotationParser.Tags | RouteAnnotator.php:130 | every matched tag has a non-empty name and a non-empty, single-line value |
| AnnotationParser.TagAtMatch | RouteAnnotator.php:130 | a tag matched at `i` stands in the comment: `* @`, the name as a run of letters, the whole greedy run of blanks, then the value up to the end of its line (starting with a blank only when it is the single blank given back at a line end) |
| AnnotationParser.TagMatchAt | RouteAnnotator.php:130 | wherever the tag pattern matches the text, the scanner finds a tag at that index |
| AnnotationParser.TagSpansMatch | RouteAnnotator.php:130 | each captured tag stands in the comment at its span, with the greedy blank run and the value as the pattern gives them |
| AnnotationParser.TagSpansOrdered | RouteAnnotator.php:130 | the tag matches come in text order and do not overlap |
| AnnotationParser.TagSpansCover | RouteAnnotator.php:130 | every place from the scan start where the tag pattern matches the text lies inside one of the matches, so no tag is missed |
| AnnotationParser.TagsInText | RouteAnnotator.php:130 | over the whole comment: the n-th tag is found at the n-th span, the spans are in order, and they cover every place where the pattern matches the text |
| AnnotationParser.RouteTagInText | RouteAnnotator.php:130-146 | a comment that parses as a route contains `* @route` followed by a blank |
| AnnotationParser.TagValuesEmpty | RouteAnnotator.php:134-146 | a tag name has no grouped values exactly when no matched tag carries it |
| AnnotationParser.TagValuesFirst | RouteAnnotator.php:134-142 | the first grouped value of a name is the value of the earliest tag with that name |
| AnnotationParser.ParamStart | RouteAnnotator.php:163 | the result is the leftmost `$` from the given index that is followed by a non-space; there is none exactly when no such `$` exists |
| AnnotationParser.MatchParam | RouteAnnotator.php:163 | the `@param` pattern matches exactly when some `$` is followed by a non-space; the captured name is the whole run of non-spaces after the leftmost such `$`, so it is non-empty and holds no space |
| AnnotationParser.RegexGroupAt | RouteAnnotator.php:163 | the group `\/.*\/` tried at an index matches exactly when a slash stands there and another slash follows on the same line; it is then the text from that slash up to the line's last slash |
| AnnotationParser.MatchParamRegex | RouteAnnotator.php:163 | the captured `regex` group is tried right after the name and the blanks that follow it; it is absent exactly when no slash-delimited group starts there, and otherwise runs to the line's last slash |
| AnnotationParser.StripDelimiters | RouteAnnotator.php:165 | for a `/.../` group, the delimiters are removed and the inner pattern is kept |
| AnnotationParser.StripDelimitersOf | RouteAnnotator.php:165 | removing the pattern delimiters from `/re/` gives back `re` exactly |
| AnnotationParser.MatchParamCondition | RouteAnnotator.php:163-165 | `$id /re/` captures the name `id` and the group `/re/`, and stripping gives `re` |
| AnnotationParser.MatchParamAt | RouteAnnotator.php:163 | for `$`, a space-free name ending at a space, blanks, and a slash-delimited rest of the line, the match is that name and that whole delimited rest |
| AnnotationParser.ConditionsOfLookup | RouteAnnotator.php:161-167 | the condition for a parameter is the pattern of the last `@param` value naming it with a `/.../` group; values without a group or without a match add nothing |
| AnnotationParser.ConditionsOfDistinct | RouteAnnotator.php:165 | no parameter appears twice among the conditions |
| AnnotationParser.ParseNoneIffNoRouteTag | RouteAnnotator.php:144-146 | a comment parses to NULL exactly when it has no `* @route<blanks>value` match |
| AnnotationParser.ParseRouteValue | RouteAnnotator.php:150-153 | the earliest `@route` value equals the methods joined with bars, followed by a space and the uri when a uri is present; there is at least one method, and none holds a bar or a space |
| AnnotationParser.RouteValueRoundTrip | RouteAnnotator.php:150-152 | splitting a `@route` value into methods and uri, then joining them back, gives the value |
| AnnotationParser.ParseNameAndMiddleware | RouteAnnotator.php:148-159 | the name is absent exactly when no `@name` tag exists, and otherwise is the earliest one's value; the middleware is empty exactly when no `@middleware` tag exists |
| AnnotationParser.ParseConditions | RouteAnnotator.php:154-168 | each parsed condition is the last pattern given for its parameter, and keys are distinct |
| AnnotationParser.GroupAnnotations | RouteAnnotator.php:132-142 | the `$annotations` array has a key exactly for each tag name that occurs, holding its values in order of appearance |
| AnnotationParser.BuildConditions | RouteAnnotator.php:161-168 | the loop over `@param` values builds the conditions of the specification |
| AnnotationParser.ParseMethodAnnotation | RouteAnnotator.php:114-171 | the loop-based parser returns exactly `Parse(doc)` |
| RouteAnnotation.ResolveController | RouteAnnotator.php:214-217 | the result starts with the controllers namespace; what follows does not start with a backslash and is a suffix of the given name, and everything of the name before that suffix is backslashes |
| RouteAnnotation.ResolveControllerSame | RouteAnnotator.php:214-217 | two names resolve to the same class exactly when they agree once leading backslashes are dropped |
| RouteAnnotation.ResolveControllerAbsolute | RouteAnnotator.php:216 | `\Foo` and `Foo` resolve to the same class |
| RouteAnnotation.BuildPayload | RouteAnnotator.php:182-190 | `uses` is the unresolved name, `@`, then the method name; `as` is present exactly when the name is non-empty in PHP's sense; `middleware` is present exactly when the list is non-empty |
| RouteAnnotation.MakeAndRegisterRoute | RouteAnnotator.php:180-206 | the route keeps the parsed methods, uri (`""` when absent), conditions and description, and `uses`; its pattern is the router's compilation of uri and conditions |
| RouteAnnotation.AnnotatedRoutesAppend | RouteAnnotator.php:95-103 | the routes of two method lists are the routes of each, in order |
| RouteAnnotation.AnnotatedRoutesSingle | RouteAnnotator.php:97-102 | one method contributes one route when its comment parses, and none otherwise |
| RouteAnnotation.AllRoutesHas | RouteAnnotator.php:62-65 | a route is among all annotated routes exactly when some controller's list holds it |
| RouteAnnotation.PutResolved | RouteAnnotator.php:105 | storing under a resolved name keeps every registry key a resolved name |
| RouteAnnotation.RouteAnnotator.constructor | RouteAnnotator.php:22-27 | the registry starts empty |
| RouteAnnotation.RouteAnnotator.GetAnnotatedControllers | RouteAnnotator.php:34-37 | the list holds exactly the names `hasAnnotate` accepts, each once |
| RouteAnnotation.RouteAnnotator.HasAnnotate | RouteAnnotator.php:42-45 | true exactly for a registry key as given; a name outside the controllers namespace is never found |
| RouteAnnotation.RouteAnnotator.GetAnnotatedRoutes | RouteAnnotator.php:52-68 | whatever controllers are asked for, the result is every controller's routes in key order |
| RouteAnnotation.RouteAnnotator.HasRoute | RouteAnnotator.php:76-80 | true exactly when some controller registered an equal route |
| RouteAnnotation.RouteAnnotator.AnnotateController | RouteAnnotator.php:88-106 | an unknown class changes nothing. Otherwise the resolved class's entry becomes the routes of its annotated methods, in method order. An earlier entry is replaced in place, other keys are untouched, and keys stay distinct and resolved |
| RouteAnnotation.RouteAnnotator.CollectRoutes | RouteAnnotator.php:95-103 | the loop over the reflected methods yields one route per method whose comment carries a route tag, in method order, so never more routes than methods |
| RouteAnnotation.ReannotateReplaces | RouteAnnotator.php:105 | annotating a controller twice leaves exactly the second call's routes |
| StandarizeRoute.RouteIdentityIgnoresAction | Commands/StandarizeRouteCommand.php:106-114 | routes with equal methods and pattern have equal identities, whatever their name, middleware or uri |
| StandarizeRoute.RouteIdentitySplits | Commands/StandarizeRouteCommand.php:110-113 | for parsed methods, the identity splits back into the joined methods and the pattern, and the methods are recovered |
| StandarizeRoute.RouteIdentitySame | Commands/StandarizeRouteCommand.php:106-114 | for parsed methods, two identities are equal exactly when methods and pattern are equal |
| StandarizeRoute.AnnotatedRoutesWellFormed | RouteAnnotator.php:150-152 | every annotated route has at least one method, none holding a bar or a space |
| StandarizeRoute.MethodRoutesWellFormed | RouteAnnotator.php:150-152 | the route of one annotated method has at least one method, none holding a bar or a space |
| StandarizeRoute.GetRouteIdentities | Commands/StandarizeRouteCommand.php:90-98 | one identity per route, same length and order |
| StandarizeRoute.ArrayDiffHas | Commands/StandarizeRouteCommand.php:73 | `array_diff(a, b)` holds exactly the values of `a` that are not in `b` |
| StandarizeRoute.NoAnnotatedRouteSkipped | Commands/StandarizeRouteCommand.php:73-77 | after line 73 removes all annotated identities, the skip test rejects no annotated route: all are emitted, in order |
| PhpStrings.ToLower | Commands/StandarizeRouteCommand.php:138-143 | every ASCII capital becomes its small letter and every other character is kept, so no capital is left |
| StandarizeRoute.SelectVerbCases | Commands/StandarizeRouteCommand.php:129-146 | `get` exactly for `[GET,HEAD]` or `[GET]`; `post`, `put`, `patch` or `delete` exactly for that lone verb; `match` exactly for every other list, and only `match` takes an extra argument: the bracketed, comma-separated list of the quoted lower-cased verbs |
| StandarizeRoute.SelectVerbMatch | Commands/StandarizeRouteCommand.php:140-145 | `[GET,POST,DELETE]` renders `match` with `['get', 'post', 'delete']` |
| StandarizeRoute.ShortUsesQualified | Commands/StandarizeRouteCommand.php:150 | a handler qualified by the action's namespace is shown without that qualification |
| StandarizeRoute.ActionArgumentForm | Commands/StandarizeRouteCommand.php:152-171 | the action is the bare quoted handler exactly when name, middleware and prefix are all empty; otherwise it is an array literal whose first entry is `uses` |
| StandarizeRoute.WhereClauseLines | Commands/StandarizeRouteCommand.php:183-188 | read back line by line, the `->where` block has one clause per condition, in order, naming its parameter and pattern |
| StandarizeRoute.RouteStatementShape | Commands/StandarizeRouteCommand.php:181-188 | the statement opens with `Route::` and closes the call with `)`; the `->where` block follows, then `;` |
| StandarizeRoute.IndentedLines | Commands/StandarizeRouteCommand.php:195 | the indented description consists of the description's lines, each behind the comment margin |
| StandarizeRoute.CommentHeaderLines | Commands/StandarizeRouteCommand.php:190-198 | the comment, line by line: two empty lines, `/*`, a rule, `Route` with the quoted name when `as` is set, a rule, each description line behind the margin plus an empty margin line when the description is non-empty, the generation time, and the closing lines |
| StandarizeRoute.CommentHeaderText | Commands/StandarizeRouteCommand.php:190-198 | the comment is its body lines, each one after a line break, whatever the name, description and time hold |
| StandarizeRoute.RenderRouteStart | Commands/StandarizeRouteCommand.php:190-203 | without a comment the block is `"\n\nRoute::..."` and does not depend on the clock; with one it starts `"\n\n/*"` |
| StandarizeRoute.GenerateStandartRoute | Commands/StandarizeRouteCommand.php:205 | the old file text is a proper prefix of the new text, and the new text ends with `;` |
| StandarizeRoute.Fire | Commands/StandarizeRouteCommand.php:53-82 | a missing route file fails first. A given controller that is not a key fails before anything is appended; a name outside the controllers namespace always fails this way. Otherwise every annotated route is rendered and appended in registry order, with one report line each |

## Left out

- `RouteAnnotationServiceProvider.php` is not part of this model. It does container wiring, command registration and the `Route::annotate` macro.
- Laravel's router is reduced to a value:
  - registration keeps the given methods, uri and action;
  - the group namespace and prefix are copied into the action;
  - the compiled pattern is an opaque function of uri and conditions.
- Not modelled from the router:
  - group merging of `uses` and the other group attributes;
  - uri normalisation;
  - the implicit `HEAD` method;
  - the `RouteCollection` that `getRoutes` reads;
  - binding to the current request.
- The application's routes are therefore an input list.
- Reflection is a map from class name to the class's methods. A missing class makes `AnnotateController` return false and change nothing, where PHP throws. A method without a doc comment is given the empty comment.
- File I/O is a string: `file_exists` becomes `None`, and the appended text is returned rather than written back.
- `date('Y-m-d H:i:s')` is one timestamp parameter shared by all routes of a run. The PHP code reads the clock once per route.
- The console `info` lines are returned as the report.
- Option parsing is left out. `route-file` is replaced by the optional file text, and `no-comment` and the controller argument are plain inputs. `keep-annotations` is declared but never read.
- Thrown exceptions are `Failure` values, and their message text is not modelled.
- `array_merge` at RouteAnnotator.php:148 also copies tags other than the known ones into the route data. Nothing reads them, so `RouteData` omits them.
- A `@route` value without a space leaves the uri absent, where PHP gives NULL with a notice. It is handed to the router as `""`.
- Regular expressions are modelled only as the four patterns used, scanned leftmost and without overlap. PCRE's `$` matching before a final newline does not arise, because every group stops at a line break.
- `ToLower` changes ASCII letters only. That is what `strtolower` does from PHP 8.2 on. Earlier versions follow the current locale, which the model does not capture.
- `Fire` is stated against the functions `AllRoutes`, `RenderAll` and `Reports`. It does not check that the application's routes came from the same router.
