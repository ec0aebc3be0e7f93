/**
 * The parts of Laravel's router the core touches, reduced to values:
 * the action array of a route, the route itself with the two fields the
 * annotator attaches to it, and the router context a route is registered
 * in. The compiled matching pattern is opaque: the router computes it.
 */
module Routes {
  import opened Wrappers
  import opened AnnotationParser

  /** A route's action array. An absent `namespace` or `prefix` is "". */
  datatype Action = Action(
    uses: string,
    namespace: string,
    name: Option<string>,       // the 'as' key; None when it is not set
    middleware: seq<string>,
    prefix: string)

  /** A registered route with the `conditions` and `description` the annotator attaches. */
  datatype Route = Route(
    methods: seq<string>,
    uri: string,
    action: Action,
    regex: string,              // the compiled matching pattern
    conditions: Conditions,
    description: string)

  /**
   * The router a route is registered with: the group namespace and prefix
   * it adds to every action, and its route compiler, which turns a uri and
   * its `where` constraints into the pattern it matches requests with.
   */
  datatype Router = Router(
    namespace: string,
    prefix: string,
    compile: (string, Conditions) -> string)

  /** The action array the annotator hands to `Router::match`. */
  datatype Payload = Payload(
    uses: string,
    middleware: Option<seq<string>>,
    name: Option<string>)

  /** `Router::match(methods, uri, payload)` followed by the `where` calls for `conditions`. */
  function Register(router: Router, methods: seq<string>, uri: string, payload: Payload, conditions: Conditions): Route
  {
    Route(methods, uri,
      Action(payload.uses, router.namespace, payload.name, payload.middleware.GetOr([]), router.prefix),
      router.compile(uri, conditions), [], "")
  }
}
