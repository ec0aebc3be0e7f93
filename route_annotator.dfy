/**
 * `RouteAnnotator`: resolves a controller name, parses the doc comment of
 * each of its methods, registers a route per annotated method and keeps
 * the routes per resolved controller class in an ordered registry.
 */
module RouteAnnotation {
  import opened Wrappers
  import opened PhpStrings
  import opened PhpArray
  import opened AnnotationParser
  import opened Routes

  const ControllerNamespace: string := "App\\Http\\Controllers\\"

  /** The name starts with the controllers namespace. */
  predicate InControllerNamespace(name: string)
  {
    |name| >= |ControllerNamespace| && name[..|ControllerNamespace|] == ControllerNamespace
  }

  /** `resolveController`: the controllers namespace, then the name without its leading backslashes. */
  function ResolveController(controller: string): (cls: string)
    ensures |cls| >= |ControllerNamespace| && cls[..|ControllerNamespace|] == ControllerNamespace
    ensures cls[|ControllerNamespace|..] == [] || cls[|ControllerNamespace|] != '\\'
    ensures |cls| - |ControllerNamespace| <= |controller|
    ensures cls[|ControllerNamespace|..] == controller[|controller| - (|cls| - |ControllerNamespace|)..]
    ensures forall i :: 0 <= i < |controller| - (|cls| - |ControllerNamespace|) ==> controller[i] == '\\'
  {
    ControllerNamespace + TrimLeading(controller, '\\')
  }

  /**
   * Two names resolve to the same class exactly when they agree once their
   * leading backslashes are dropped; an absolute name is prefixed too.
   */
  lemma ResolveControllerSame(c1: string, c2: string)
    ensures ResolveController(c1) == ResolveController(c2) <==> TrimLeading(c1, '\\') == TrimLeading(c2, '\\')
  {
    var n := |ControllerNamespace|;
    var t1, t2 := TrimLeading(c1, '\\'), TrimLeading(c2, '\\');
    assert (ControllerNamespace + t1)[n..] == t1;
    assert (ControllerNamespace + t2)[n..] == t2;
  }

  /** A leading backslash makes no difference: `\\Foo` and `Foo` name the same class. */
  lemma ResolveControllerAbsolute(c: string)
    ensures ResolveController("\\" + c) == ResolveController(c)
  {
    assert ("\\" + c)[1..] == c;
  }

  /** What reflection reports for one method of the controller class. */
  datatype MethodDoc = MethodDoc(name: string, docComment: string)

  /**
   * The action array `makeAndRegisterRoute` builds: `uses` from the name as
   * given (not the resolved class), `middleware` only when the list is
   * non-empty, `as` only when the name is not empty in PHP's sense.
   */
  function BuildPayload(controller: string, methodName: string, data: RouteData): (p: Payload)
    ensures p.uses == controller + "@" + methodName
    ensures p.name.Some? <==> data.name.Some? && !IsEmptyString(data.name.value)
    ensures p.name.Some? ==> p.name == data.name
    ensures p.middleware.Some? <==> data.middleware != []
    ensures p.middleware.Some? ==> p.middleware.value == data.middleware
  {
    Payload(
      controller + "@" + methodName,
      if data.middleware != [] then Some(data.middleware) else None,
      if data.name.Some? && !IsEmptyString(data.name.value) then data.name else None)
  }

  /** `makeAndRegisterRoute`: registers the route and attaches the parsed conditions and description. */
  function MakeAndRegisterRoute(router: Router, controller: string, methodName: string, data: RouteData): (route: Route)
    ensures route.conditions == data.conditions && route.description == data.description
    ensures route.methods == data.methods && route.uri == data.uri.GetOr("")
    ensures route.action.uses == controller + "@" + methodName
    ensures route.regex == router.compile(route.uri, data.conditions)
  {
    var uri := data.uri.GetOr("");
    Register(router, data.methods, uri, BuildPayload(controller, methodName, data), data.conditions)
      .(conditions := data.conditions, description := data.description)
  }

  /** The route one reflected method contributes: none when its comment is not a route. */
  function MethodRoutes(router: Router, controller: string, m: MethodDoc): seq<Route>
  {
    match Parse(m.docComment)
    case None => []
    case Some(data) => [MakeAndRegisterRoute(router, controller, m.name, data)]
  }

  /** The routes `annotateController` builds from the reflected methods, in method order. */
  function AnnotatedRoutes(router: Router, controller: string, methods: seq<MethodDoc>): seq<Route>
  {
    FlatMap(m => MethodRoutes(router, controller, m), methods)
  }

  /**
   * The routes of two lists of methods are the routes of each, one after
   * the other: the order of the methods is kept.
   */
  lemma AnnotatedRoutesAppend(router: Router, controller: string, ms: seq<MethodDoc>, ns: seq<MethodDoc>)
    ensures AnnotatedRoutes(router, controller, ms + ns)
      == AnnotatedRoutes(router, controller, ms) + AnnotatedRoutes(router, controller, ns)
  {
    FlatMapAppend(m => MethodRoutes(router, controller, m), ms, ns);
  }

  lemma AnnotatedRoutesSnoc(router: Router, controller: string, ms: seq<MethodDoc>, m: MethodDoc)
    ensures AnnotatedRoutes(router, controller, ms + [m])
      == AnnotatedRoutes(router, controller, ms) + MethodRoutes(router, controller, m)
  {
    FlatMapSnoc(m => MethodRoutes(router, controller, m), ms, m);
  }

  /** A single method yields its route when its comment parses, and nothing otherwise. */
  lemma AnnotatedRoutesSingle(router: Router, controller: string, m: MethodDoc)
    ensures Parse(m.docComment).None? ==> AnnotatedRoutes(router, controller, [m]) == []
    ensures Parse(m.docComment).Some? ==> (AnnotatedRoutes(router, controller, [m])
      == [MakeAndRegisterRoute(router, controller, m.name, Parse(m.docComment).value)])
  {
    AnnotatedRoutesSnoc(router, controller, [], m);
    assert [] + [m] == [m];
  }

  /** Concatenation of the registry's route lists, in key order. */
  function AllRoutes(registry: OrderedMap<seq<Route>>): seq<Route>
  {
    if registry == [] then []
    else AllRoutes(registry[..|registry| - 1]) + registry[|registry| - 1].1
  }

  /** A route is among all routes exactly when some controller's list holds it. */
  lemma {:induction false} AllRoutesHas(registry: OrderedMap<seq<Route>>, route: Route)
    ensures route in AllRoutes(registry) <==> exists i :: 0 <= i < |registry| && route in registry[i].1
  {
    if registry != [] {
      var init := registry[..|registry| - 1];
      AllRoutesHas(init, route);
      assert forall i :: 0 <= i < |init| ==> init[i] == registry[i];
    }
  }

  /** Assigning under a resolved name keeps every key a resolved name. */
  lemma PutResolved(m: OrderedMap<seq<Route>>, k: string, v: seq<Route>)
    requires forall i :: 0 <= i < |m| ==> InControllerNamespace(m[i].0)
    requires InControllerNamespace(k)
    ensures forall i :: 0 <= i < |Put(m, k, v)| ==> InControllerNamespace(Put(m, k, v)[i].0)
  {
    var m' := Put(m, k, v);
    KeysPut(m, k, v);
    forall i | 0 <= i < |m'| ensures InControllerNamespace(m'[i].0) {
      assert Keys(m')[i] == m'[i].0;
      if i < |m| {
        assert Keys(m)[i] == m[i].0;
      }
    }
  }

  class RouteAnnotator {
    const router: Router
    /** `annotated_controllers`: resolved controller class to its routes. */
    var annotatedControllers: OrderedMap<seq<Route>>

    /** Each resolved class has one entry, and every key is a resolved class name. */
    ghost predicate Valid()
      reads this
    {
      DistinctKeys(annotatedControllers)
      && forall i :: 0 <= i < |annotatedControllers| ==> InControllerNamespace(annotatedControllers[i].0)
    }

    constructor(router: Router)
      ensures Valid() && this.router == router && annotatedControllers == []
    {
      this.router := router;
      annotatedControllers := [];
    }

    /** `getAnnotatedControllers`: the registry keys, in insertion order, each once. */
    function GetAnnotatedControllers(): (controllers: seq<string>)
      reads this
      requires Valid()
      ensures forall c :: c in controllers <==> HasAnnotate(c)
      ensures forall i, j :: 0 <= i < j < |controllers| ==> controllers[i] != controllers[j]
    {
      var keys := Keys(annotatedControllers);
      assert forall c :: HasAnnotate(c) <==> c in keys by {
        forall c ensures HasAnnotate(c) <==> c in keys {
          GetFound(annotatedControllers, c);
        }
      }
      keys
    }

    /**
     * `hasAnnotate`: the key is looked up as given, without resolving it,
     * so a name outside the controllers namespace is never found.
     */
    function HasAnnotate(controller: string): (annotated: bool)
      reads this
      ensures annotated <==> controller in Keys(annotatedControllers)
      ensures Valid() && !InControllerNamespace(controller) ==> !annotated
    {
      GetFound(annotatedControllers, controller);
      Get(annotatedControllers, controller).Some?
    }

    /**
     * `getAnnotatedRoutes`: whatever controllers are asked for, every
     * controller's routes in key order (`getAnnotatedRoutes` tests an
     * undefined variable, so it always falls back to all controllers).
     */
    method GetAnnotatedRoutes(requested: seq<string>) returns (routes: seq<Route>)
      requires Valid()
      ensures routes == AllRoutes(annotatedControllers)
    {
      var controllers := GetAnnotatedControllers();
      routes := [];
      for i := 0 to |controllers|
        invariant routes == AllRoutes(annotatedControllers[..i])
      {
        GetAt(annotatedControllers, i);
        var found := Get(annotatedControllers, controllers[i]);
        routes := routes + found.value;
        assert annotatedControllers[..i + 1][..i] == annotatedControllers[..i];
      }
      assert annotatedControllers[..|annotatedControllers|] == annotatedControllers;
    }

    /** `hasRoute`: whether some annotated controller registered an equal route. */
    method HasRoute(route: Route) returns (found: bool)
      requires Valid()
      ensures found <==> exists i :: 0 <= i < |annotatedControllers| && route in annotatedControllers[i].1
    {
      var routes := GetAnnotatedRoutes([]);
      AllRoutesHas(annotatedControllers, route);
      found := route in routes;
    }

    /**
     * The loop of `annotateController` over the reflected methods: one route
     * for each method whose comment carries a route tag, in method order.
     */
    method CollectRoutes(controller: string, methods: seq<MethodDoc>) returns (routes: seq<Route>)
      ensures routes == AnnotatedRoutes(router, controller, methods)
      ensures |routes| <= |methods|
    {
      routes := [];
      for i := 0 to |methods|
        invariant routes == AnnotatedRoutes(router, controller, methods[..i])
        invariant |routes| <= i
      {
        assert methods[..i + 1] == methods[..i] + [methods[i]];
        AnnotatedRoutesSnoc(router, controller, methods[..i], methods[i]);
        var data := ParseMethodAnnotation(methods[i].docComment);
        if data.Some? {
          routes := routes + [MakeAndRegisterRoute(router, controller, methods[i].name, data.value)];
        }
        assert routes == AnnotatedRoutes(router, controller, methods[..i]) + MethodRoutes(router, controller, methods[i]);
      }
      assert methods[..|methods|] == methods;
    }

    /**
     * `annotateController`: fails when reflection knows no class of the
     * resolved name; otherwise sets that class's entry to the routes of its
     * annotated methods, replacing any earlier entry in place.
     */
    method AnnotateController(controller: string, reflection: map<string, seq<MethodDoc>>) returns (found: bool)
      requires Valid()
      modifies this
      ensures Valid()
      ensures found <==> ResolveController(controller) in reflection
      ensures found ==> annotatedControllers == Put(old(annotatedControllers), ResolveController(controller),
        AnnotatedRoutes(router, controller, reflection[ResolveController(controller)]))
      ensures !found ==> annotatedControllers == old(annotatedControllers)
    {
      var controllerClass := ResolveController(controller);
      if controllerClass !in reflection {
        return false;
      }
      var routes := CollectRoutes(controller, reflection[controllerClass]);
      PutDistinct(annotatedControllers, controllerClass, routes);
      PutResolved(annotatedControllers, controllerClass, routes);
      annotatedControllers := Put(annotatedControllers, controllerClass, routes);
      found := true;
    }
  }

  /**
   * Annotating the same controller twice keeps only the second result: the
   * registry then holds exactly the second call's routes.
   */
  method ReannotateReplaces(router: Router, controller: string,
                            first: map<string, seq<MethodDoc>>, second: map<string, seq<MethodDoc>>)
    returns (routes: seq<Route>)
    requires ResolveController(controller) in first && ResolveController(controller) in second
    ensures routes == AnnotatedRoutes(router, controller, second[ResolveController(controller)])
  {
    var annotator := new RouteAnnotator(router);
    var _ := annotator.AnnotateController(controller, first);
    var _ := annotator.AnnotateController(controller, second);
    routes := annotator.GetAnnotatedRoutes([]);
  }
}
