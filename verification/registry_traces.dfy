/**
 * Sequences of registry calls starting from a fresh registry, and the
 * properties that hold across them: the invariant, first-binding order of the
 * names, stable bindings, callbacks firing once, and disposal only at teardown.
 */
module RegistryTraces {
  import opened Seqs
  import opened Wrappers
  import opened SingletonRegistry

  /** A mutating registry call. Lookups, counts and dependency queries change nothing and are not listed. */
  datatype Op =
    | Register(name: string, instance: Obj)
    | Obtain(name: string, factory: Factory)
    | AddCallback(name: string, handler: Handler)
    | RegisterDisposable(name: string, disposer: Obj)
    | RegisterDependent(name: string, dependent: string)
    | DestroyAll

  /** One call; a call that fails leaves the registry as it was. */
  function Step(r: Registry, op: Op): (r': Registry) {
    match op
    case Register(n, x) =>
      (match RegisterSingleton(r, n, x)
       case Success(r') => r'
       case Failure(_) => r)
    case Obtain(n, f) => GetSingletonWith(r, n, f).registry
    case AddCallback(n, h) => AddSingletonCallback(r, n, h)
    case RegisterDisposable(n, d) => RegisterDisposableBean(r, n, d)
    case RegisterDependent(n, d) => RegisterDependentBean(r, n, d)
    case DestroyAll => DestroySingletons(r)
  }

  /** The calls `ops`, in order, starting from `r`. */
  function Run(r: Registry, ops: seq<Op>): (r': Registry)
    decreases |ops|
  {
    if |ops| == 0 then r else Step(Run(r, ops[..|ops| - 1]), ops[|ops| - 1])
  }

  /** The name a call asks to bind, if any. */
  function BindRequest(op: Op): (o: Option<string>) {
    match op
    case Register(n, _) => Some(n)
    case Obtain(n, _) => Some(n)
    case _ => None
  }

  /** The names each call since the last teardown asked to bind, in call order, repeats included. */
  function BindRequests(ops: seq<Op>): (req: seq<string>)
    decreases |ops|
  {
    if |ops| == 0 then []
    else
      var op := ops[|ops| - 1];
      var earlier := BindRequests(ops[..|ops| - 1]);
      if op.DestroyAll? then []
      else if BindRequest(op).Some? then earlier + [BindRequest(op).value]
      else earlier
  }

  /** The names each call since the last teardown registered as disposable, in call order, repeats included. */
  function DisposableRequests(ops: seq<Op>): (req: seq<string>)
    decreases |ops|
  {
    if |ops| == 0 then []
    else
      var earlier := DisposableRequests(ops[..|ops| - 1]);
      match ops[|ops| - 1]
      case RegisterDisposable(n, _) => earlier + [n]
      case DestroyAll => []
      case _ => earlier
  }

  /** The callbacks each call since the last teardown added for `n`, in call order, repeats included. */
  function CallbackRequests(ops: seq<Op>, n: string): (req: seq<Handler>)
    decreases |ops|
  {
    if |ops| == 0 then []
    else
      var earlier := CallbackRequests(ops[..|ops| - 1], n);
      match ops[|ops| - 1]
      case AddCallback(m, h) => if m == n then earlier + [h] else earlier
      case DestroyAll => []
      case _ => earlier
  }

  lemma StepKeepsValid(r: Registry, op: Op)
    requires Valid(r)
    ensures Valid(Step(r, op))
  {
  }

  lemma {:induction false} RunKeepsValid(r: Registry, ops: seq<Op>)
    requires Valid(r)
    ensures Valid(Run(r, ops))
    decreases |ops|
  {
    if |ops| > 0 {
      RunKeepsValid(r, ops[..|ops| - 1]);
      StepKeepsValid(Run(r, ops[..|ops| - 1]), ops[|ops| - 1]);
    }
  }

  /** The effect of one call on the bound names: a requested name joins at the end unless already bound. */
  lemma StepNames(r: Registry, op: Op)
    requires Valid(r)
    ensures op.DestroyAll? ==> Step(r, op).names == []
    ensures BindRequest(op).None? && !op.DestroyAll? ==> Step(r, op).names == r.names
    ensures BindRequest(op).Some? ==>
      var n := BindRequest(op).value;
      Step(r, op).names == if n in r.names then r.names else r.names + [n]
  {
  }

  /**
   * `getSingletonNames()` lists each name bound since the last teardown once,
   * in the order of the first call that bound it, whichever creation path it
   * took; `getSingletonCount()` is the number of those names.
   */
  lemma {:induction false} NamesInFirstBindingOrder(ops: seq<Op>)
    ensures GetSingletonNames(Run(Empty(), ops)) == Dedup(BindRequests(ops))
    ensures GetSingletonCount(Run(Empty(), ops)) == |Dedup(BindRequests(ops))|
    decreases |ops|
  {
    if |ops| > 0 {
      var init := ops[..|ops| - 1];
      var op := ops[|ops| - 1];
      var r := Run(Empty(), init);
      assert Run(Empty(), ops) == Step(r, op);
      NamesInFirstBindingOrder(init);
      RunKeepsValid(Empty(), init);
      StepNames(r, op);
      var req := BindRequests(init);
      if BindRequest(op).Some? {
        var n := BindRequest(op).value;
        assert BindRequests(ops) == req + [n];
        DedupSnoc(req, n);
      } else if !op.DestroyAll? {
        assert BindRequests(ops) == req;
      }
    }
  }

  /** The effect of one call on the disposal order: a newly registered name joins at the end. */
  lemma StepDisposableNames(r: Registry, op: Op)
    requires Valid(r)
    ensures op.DestroyAll? ==> Step(r, op).disposableNames == []
    ensures op.RegisterDisposable? ==>
      Step(r, op).disposableNames ==
        if op.name in r.disposableNames then r.disposableNames else r.disposableNames + [op.name]
    ensures !op.DestroyAll? && !op.RegisterDisposable? ==> Step(r, op).disposableNames == r.disposableNames
  {
  }

  /**
   * The disposal order lists each name registered as disposable since the
   * last teardown once, in the order of its first registration; teardown
   * invokes them in the reverse of this order.
   */
  lemma {:induction false} DisposablesInRegistrationOrder(ops: seq<Op>)
    ensures Run(Empty(), ops).disposableNames == Dedup(DisposableRequests(ops))
    decreases |ops|
  {
    if |ops| > 0 {
      var init := ops[..|ops| - 1];
      var op := ops[|ops| - 1];
      var r := Run(Empty(), init);
      assert Run(Empty(), ops) == Step(r, op);
      DisposablesInRegistrationOrder(init);
      RunKeepsValid(Empty(), init);
      StepDisposableNames(r, op);
      if op.RegisterDisposable? {
        DedupSnoc(DisposableRequests(init), op.name);
      }
    }
  }

  /** The effect of one call on the callbacks of `n`: a new callback for `n` joins at the end. */
  lemma StepHandlers(r: Registry, op: Op, n: string)
    ensures op.DestroyAll? ==> Handlers(Step(r, op), n) == []
    ensures op.AddCallback? && op.name == n ==>
      Handlers(Step(r, op), n) ==
        if op.handler in Handlers(r, n) then Handlers(r, n) else Handlers(r, n) + [op.handler]
    ensures !op.DestroyAll? && !(op.AddCallback? && op.name == n) ==> Handlers(Step(r, op), n) == Handlers(r, n)
  {
  }

  /**
   * The callbacks of `n` are those added for `n` since the last teardown, each
   * once, in the order of its first addition.
   */
  lemma {:induction false} CallbacksInRegistrationOrder(ops: seq<Op>, n: string)
    ensures Handlers(Run(Empty(), ops), n) == Dedup(CallbackRequests(ops, n))
    decreases |ops|
  {
    if |ops| > 0 {
      var init := ops[..|ops| - 1];
      var op := ops[|ops| - 1];
      var r := Run(Empty(), init);
      assert Run(Empty(), ops) == Step(r, op);
      CallbacksInRegistrationOrder(init, n);
      StepHandlers(r, op, n);
      if op.AddCallback? && op.name == n {
        DedupSnoc(CallbackRequests(init, n), op.handler);
      }
    }
  }

  /** A binding, once made, is never replaced by any call other than teardown. */
  lemma StepKeepsBindings(r: Registry, op: Op, n: string)
    requires op != DestroyAll
    requires GetSingleton(r, n).Some?
    ensures GetSingleton(Step(r, op), n) == GetSingleton(r, n)
  {
  }

  /** Repeated lookups of a bound name return the same instance until teardown. */
  lemma {:induction false} BindingsLastUntilTeardown(r: Registry, ops: seq<Op>, n: string)
    requires DestroyAll !in ops
    requires GetSingleton(r, n).Some?
    ensures GetSingleton(Run(r, ops), n) == GetSingleton(r, n)
    decreases |ops|
  {
    if |ops| > 0 {
      var init := ops[..|ops| - 1];
      assert ops == init + [ops[|ops| - 1]];
      BindingsLastUntilTeardown(r, init, n);
      StepKeepsBindings(Run(r, init), ops[|ops| - 1], n);
    }
  }

  lemma StepKeepsDisposed(r: Registry, op: Op)
    requires op != DestroyAll
    ensures Step(r, op).destroyed == r.destroyed
  {
  }

  /** No call but teardown invokes a disposer. */
  lemma {:induction false} DisposersRunOnlyAtTeardown(r: Registry, ops: seq<Op>)
    requires DestroyAll !in ops
    ensures Run(r, ops).destroyed == r.destroyed
    decreases |ops|
  {
    if |ops| > 0 {
      var init := ops[..|ops| - 1];
      var op := ops[|ops| - 1];
      assert op in ops;
      assert init <= ops;
      assert DestroyAll !in init;
      DisposersRunOnlyAtTeardown(r, init);
      StepKeepsDisposed(Run(r, init), op);
    }
  }

  /**
   * Every call only appends to the callback log. The invocations it appends
   * are distinct, and each is of a callback that was not yet due and now is,
   * with the instance now bound.
   */
  lemma StepFiresOnlyNewlyDue(r: Registry, op: Op)
    requires Valid(r)
    ensures r.fired <= Step(r, op).fired
    ensures NoDup(Step(r, op).fired[|r.fired|..])
    ensures forall i :: |r.fired| <= i < |Step(r, op).fired| ==>
      var f := Step(r, op).fired[i];
      && !Due(r, f.handler, f.name)
      && Due(Step(r, op), f.handler, f.name)
      && f.instance == Step(r, op).singletons[f.name]
  {
    var r' := Step(r, op);
    match op
    case Register(n, x) =>
      if n !in r.singletons {
        assert r'.fired[|r.fired|..] == Firings(Handlers(r, n), n, x);
      }
    case Obtain(n, f) =>
      if n !in r.singletons {
        assert r'.fired[|r.fired|..] == Firings(Handlers(r, n), n, f.instance);
      }
    case AddCallback(n, h) =>
    case RegisterDisposable(_, _) =>
    case RegisterDependent(_, _) =>
    case DestroyAll =>
  }

  /** A due callback stays due, for the same instance, across any call but teardown. */
  lemma StepKeepsDue(r: Registry, op: Op, h: Handler, n: string)
    requires op != DestroyAll
    requires Due(r, h, n)
    ensures Due(Step(r, op), h, n)
    ensures Step(r, op).singletons[n] == r.singletons[n]
  {
    match op
    case Register(m, x) =>
    case Obtain(m, f) =>
    case AddCallback(m, g) =>
      assert Handlers(r, n) <= Handlers(Step(r, op), n);
    case RegisterDisposable(_, _) =>
    case RegisterDependent(_, _) =>
  }

  /** The callback log of `r'` extends that of `r`, without repeats, by invocations that are due in `r'`. */
  ghost predicate FiredOnceSince(r: Registry, r': Registry) {
    && r.fired <= r'.fired
    && NoDup(r'.fired[|r.fired|..])
    && forall i :: |r.fired| <= i < |r'.fired| ==>
      var f := r'.fired[i];
      Due(r', f.handler, f.name) && f.instance == r'.singletons[f.name]
  }

  /**
   * `FiredOnceSince` survives a transition that keeps due callbacks due and
   * appends distinct invocations of callbacks that were not due before.
   */
  lemma ExtendFiredOnce(r: Registry, r1: Registry, r2: Registry)
    requires FiredOnceSince(r, r1)
    requires r1.fired <= r2.fired && NoDup(r2.fired[|r1.fired|..])
    requires forall i :: |r1.fired| <= i < |r2.fired| ==>
      var f := r2.fired[i];
      !Due(r1, f.handler, f.name) && Due(r2, f.handler, f.name) && f.instance == r2.singletons[f.name]
    requires forall h, n :: Due(r1, h, n) ==> Due(r2, h, n) && r2.singletons[n] == r1.singletons[n]
    ensures FiredOnceSince(r, r2)
  {
    var earlier := r1.fired[|r.fired|..];
    var later := r2.fired[|r1.fired|..];
    assert r2.fired[|r.fired|..] == earlier + later;
    forall i | |r.fired| <= i < |r1.fired|
      ensures var f := r2.fired[i];
        Due(r2, f.handler, f.name) && f.instance == r2.singletons[f.name]
    {
      assert r2.fired[i] == r1.fired[i];
    }
    forall j, k | 0 <= j < |earlier| && 0 <= k < |later|
      ensures earlier[j] != later[k]
    {
      assert earlier[j] == r1.fired[|r.fired| + j];
      assert later[k] == r2.fired[|r1.fired| + k];
    }
    NoDupConcat(earlier, later);
  }

  /** One more call that is not teardown keeps `FiredOnceSince`. */
  lemma StepKeepsFiredOnce(r: Registry, r1: Registry, op: Op)
    requires Valid(r1)
    requires op != DestroyAll
    requires FiredOnceSince(r, r1)
    ensures FiredOnceSince(r, Step(r1, op))
  {
    var r2 := Step(r1, op);
    StepFiresOnlyNewlyDue(r1, op);
    forall h, n | Due(r1, h, n)
      ensures Due(r2, h, n) && r2.singletons[n] == r1.singletons[n]
    {
      StepKeepsDue(r1, op, h, n);
    }
    ExtendFiredOnce(r, r1, r2);
  }

  /**
   * Between teardowns no callback fires twice for one binding: the callback
   * log gains no repeated invocation, and every invocation it gains is of a
   * callback still due, with the instance still bound.
   */
  lemma {:induction false} FiresAtMostOnce(r: Registry, ops: seq<Op>)
    requires Valid(r)
    requires DestroyAll !in ops
    ensures r.fired <= Run(r, ops).fired
    ensures NoDup(Run(r, ops).fired[|r.fired|..])
    ensures forall i :: |r.fired| <= i < |Run(r, ops).fired| ==>
      var f := Run(r, ops).fired[i];
      Due(Run(r, ops), f.handler, f.name) && f.instance == Run(r, ops).singletons[f.name]
    decreases |ops|
  {
    if |ops| == 0 {
      assert r.fired[|r.fired|..] == [];
    } else {
      var init := ops[..|ops| - 1];
      var op := ops[|ops| - 1];
      assert op in ops;
      assert ops == init + [op];
      assert DestroyAll !in init;
      FiresAtMostOnce(r, init);
      RunKeepsValid(r, init);
      StepKeepsFiredOnce(r, Run(r, init), op);
    }
  }

  /** Every callback registered for a bound name has fired with that name's instance. */
  lemma CallbacksHaveFired(ops: seq<Op>, n: string, h: Handler)
    requires h in Handlers(Run(Empty(), ops), n)
    requires GetSingleton(Run(Empty(), ops), n).Some?
    ensures Firing(h, n, GetSingleton(Run(Empty(), ops), n).value) in Run(Empty(), ops).fired
  {
    RunKeepsValid(Empty(), ops);
    assert Due(Run(Empty(), ops), h, n);
  }
}
