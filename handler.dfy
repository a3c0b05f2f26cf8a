/** AbstractSpecificConditionHandler: the default `apply`, and the `is`/`has`/
    `should*` calls that a handler forwards to the SelenideElement it wraps.
    Each forwarded call is made inside a SpecificConditionContext keyed on the
    handler, so that the wrapped element's evaluation of a specific condition
    comes back to that handler; the element's own answer is the `delegate`
    parameter. */
module AbstractSpecificConditionHandler {
  import opened Support
  import opened Page
  import opened Conditions
  import opened Components

  /** The `apply` of a handler that does not override it: nothing is supported. */
  function DefaultApply(c: Condition): (r: Result<bool, Failure>)
    ensures r.Err? && r.error == Unsupported
  {
    Err(Unsupported)
  }

  type Duration = nat  // milliseconds

  datatype QueryKind = IsQuery | HasQuery

  datatype Verb = Should | ShouldNot | ShouldHave | ShouldBe | ShouldNotHave | ShouldNotBe

  /** A call made on the wrapped element, with the handler whose context it runs in. */
  datatype Request =
    | Query(context: Component, kind: QueryKind, condition: Condition)
    | Wait(context: Component, verb: Verb, conditions: seq<Condition>, timeout: Option<Duration>)

  /** `is(c)` and `has(c)`: the wrapped element's answer for the same condition,
      asked in this handler's context. */
  function Ask(h: Component, kind: QueryKind, c: Condition, delegate: Request -> bool): (r: bool)
    ensures r == delegate(Query(h, kind, c))
  {
    delegate(Query(h, kind, c))
  }

  /** The varargs `should*` forms: the same conditions, no explicit timeout;
      the handler itself comes back when the element's wait passes. */
  function Await(h: Component, verb: Verb, cs: seq<Condition>, delegate: Request -> Option<Failure>): (r: Result<Component, Failure>)
    ensures r.Ok? <==> delegate(Wait(h, verb, cs, None)).None?
    ensures r.Ok? ==> r.value == h
    ensures r.Err? ==> r.error == delegate(Wait(h, verb, cs, None)).value
  {
    match delegate(Wait(h, verb, cs, None))
    case None => Ok(h)
    case Some(f) => Err(f)
  }

  /** The `(Condition, Duration)` forms: that one condition and that duration, unchanged. */
  function AwaitWithin(h: Component, verb: Verb, c: Condition, d: Duration,
                       delegate: Request -> Option<Failure>): (r: Result<Component, Failure>)
    ensures r.Ok? <==> delegate(Wait(h, verb, [c], Some(d))).None?
    ensures r.Ok? ==> r.value == h
    ensures r.Err? ==> r.error == delegate(Wait(h, verb, [c], Some(d))).value
  {
    match delegate(Wait(h, verb, [c], Some(d)))
    case None => Ok(h)
    case Some(f) => Err(f)
  }
}
