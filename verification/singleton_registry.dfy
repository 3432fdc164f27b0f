/**
 * The state of a singleton bean registry and its operations, as pure
 * transitions over an immutable value. Instances, callbacks and disposers are
 * opaque identities: two instances are the same object exactly when their ids
 * are equal.
 */
module SingletonRegistry {
  import opened Wrappers
  import opened Seqs
  import DependencyGraph

  /** Identity of a Java object held by the registry. */
  type Obj = nat

  /** Identity of a callback handed to `addSingletonCallback`. */
  type Handler = nat

  /** One invocation of a callback with the instance bound to its name. */
  datatype Firing = Firing(handler: Handler, name: string, instance: Obj)

  /**
   * A zero-argument singleton factory: it either just returns an instance, or
   * first registers that instance under the name being created and then
   * returns it.
   */
  datatype Factory =
    | Produces(instance: Obj)
    | RegistersAndReturns(instance: Obj)

  datatype Error = DuplicateRegistration(name: string, bound: Obj, offered: Obj)

  /**
   * `names` lists the bound names in first-binding order; `fired` and
   * `destroyed` record what the outside world observes (callback invocations
   * and disposer invocations, oldest first) and survive teardown.
   */
  datatype Registry = Registry(
    names: seq<string>,
    singletons: map<string, Obj>,
    callbacks: map<string, seq<Handler>>,
    fired: seq<Firing>,
    disposableNames: seq<string>,
    disposers: map<string, Obj>,
    destroyed: seq<Obj>,
    dependents: DependencyGraph.Graph)

  /** The registry after `getSingleton(name, factory)` and the instance it returned. */
  datatype Obtained = Obtained(registry: Registry, instance: Obj)

  /** The callbacks registered for `n`, in registration order. */
  function Handlers(r: Registry, n: string): (hs: seq<Handler>) {
    if n in r.callbacks then r.callbacks[n] else []
  }

  /** Callback `h` must have been invoked: it is registered for `n` and `n` is bound. */
  ghost predicate Due(r: Registry, h: Handler, n: string) {
    n in r.singletons && h in Handlers(r, n)
  }

  /** The registry's invariant, established by `Empty` and kept by every operation. */
  ghost predicate Valid(r: Registry) {
    && NoDup(r.names)
    && (forall n :: n in r.singletons <==> n in r.names)
    && (forall n :: n in r.callbacks ==> NoDup(r.callbacks[n]))
    && (forall n, h :: Due(r, h, n) ==> Firing(h, n, r.singletons[n]) in r.fired)
    && NoDup(r.disposableNames)
    && (forall n :: n in r.disposers <==> n in r.disposableNames)
  }

  /** The invocations of handlers `hs`, in order, with instance `x` bound to `n`. */
  function Firings(hs: seq<Handler>, n: string, x: Obj): (fs: seq<Firing>)
    ensures |fs| == |hs|
    ensures forall i :: 0 <= i < |hs| ==> fs[i] == Firing(hs[i], n, x)
  {
    seq(|hs|, i requires 0 <= i < |hs| => Firing(hs[i], n, x))
  }

  /** A freshly constructed registry. */
  function Empty(): (r: Registry)
    ensures Valid(r)
    ensures r.names == [] && r.fired == [] && r.destroyed == []
    ensures forall n :: GetSingleton(r, n).None?
    ensures forall n, d :: !DependencyGraph.Reaches(r.dependents, n, d)
  {
    var r := Registry([], map[], map[], [], [], map[], [], map[]);
    forall n, d
      ensures !DependencyGraph.Reaches(r.dependents, n, d)
    {
      DependencyGraph.ReachedHasIncomingEdge(r.dependents, n, d);
    }
    r
  }

  /**
   * Binds the unbound name `n` to `x`: `n` joins the names in first-binding
   * order and every callback registered for `n` fires once with `x`.
   */
  function Bind(r: Registry, n: string, x: Obj): (r': Registry)
    requires n !in r.singletons
    ensures Valid(r) ==> Valid(r')
  {
    var r' := r.(names := r.names + [n], singletons := r.singletons[n := x],
                 fired := r.fired + Firings(Handlers(r, n), n, x));
    assert Valid(r) ==> NoDup(r'.names) by {
      if Valid(r) {
        assert n !in r.names;
      }
    }
    assert forall m, h :: Due(r', h, m) && m != n ==> Due(r, h, m);
    r'
  }

  /** `registerSingleton(name, instance)`. */
  function RegisterSingleton(r: Registry, n: string, x: Obj): (res: Result<Registry, Error>)
    ensures res.Success? <==> n !in r.singletons || r.singletons[n] == x
    ensures res.Failure? ==> n in r.singletons && res.error == DuplicateRegistration(n, r.singletons[n], x)
    ensures res.Success? ==> GetSingleton(res.value, n) == Some(x)
    ensures res.Success? ==> forall m :: m != n ==> GetSingleton(res.value, m) == GetSingleton(r, m)
    ensures res.Success? ==> res.value.names == if n in r.singletons then r.names else r.names + [n]
    ensures res.Success? ==>
      res.value.fired == r.fired + if n in r.singletons then [] else Firings(Handlers(r, n), n, x)
    ensures res.Success? ==>
      res.value.(names := r.names, singletons := r.singletons, fired := r.fired) == r
    ensures Valid(r) && res.Success? ==> Valid(res.value)
  {
    if n in r.singletons then
      if r.singletons[n] == x then Success(r)
      else Failure(DuplicateRegistration(n, r.singletons[n], x))
    else
      Success(Bind(r, n, x))
  }

  /** `getSingleton(name)`: a lookup that never creates. */
  function GetSingleton(r: Registry, n: string): (o: Option<Obj>)
    ensures o.Some? <==> n in r.singletons
    ensures o.Some? ==> o.value == r.singletons[n]
    ensures Valid(r) ==> (o.Some? <==> n in r.names)
  {
    if n in r.singletons then Some(r.singletons[n]) else None
  }

  /** What running factory `f` for the unbound name `n` does to the registry. */
  function RunFactory(r: Registry, n: string, f: Factory): (r': Registry)
    requires n !in r.singletons
    ensures Valid(r) ==> Valid(r')
    ensures f.Produces? ==> r' == r
    ensures f.RegistersAndReturns? ==> GetSingleton(r', n) == Some(f.instance)
  {
    match f
    case Produces(_) => r
    case RegistersAndReturns(x) => RegisterSingleton(r, n, x).value
  }

  /**
   * `getSingleton(name, factory)`. A bound name is returned without running the
   * factory. Otherwise the factory runs; if it registered the name itself, that
   * registration is accepted, else its result is bound.
   */
  function GetSingletonWith(r: Registry, n: string, f: Factory): (o: Obtained)
    ensures GetSingleton(o.registry, n) == Some(o.instance)
    ensures n in r.singletons ==> o == Obtained(r, r.singletons[n])
    ensures n !in r.singletons ==> o.instance == f.instance
    ensures forall m :: m != n ==> GetSingleton(o.registry, m) == GetSingleton(r, m)
    ensures n !in r.singletons ==> o.registry.names == r.names + [n]
    ensures n !in r.singletons ==> o.registry.fired == r.fired + Firings(Handlers(r, n), n, f.instance)
    ensures o.registry.(names := r.names, singletons := r.singletons, fired := r.fired) == r
    ensures Valid(r) ==> Valid(o.registry)
  {
    if n in r.singletons then Obtained(r, r.singletons[n])
    else
      var during := RunFactory(r, n, f);
      if n in during.singletons then Obtained(during, during.singletons[n])
      else Obtained(Bind(during, n, f.instance), f.instance)
  }

  /** `getSingletonCount()`. */
  function GetSingletonCount(r: Registry): (c: nat)
    ensures Valid(r) ==> c == |r.singletons|
  {
    assert Valid(r) ==> |r.singletons| == |r.names| by {
      if Valid(r) {
        NoDupCardinality(r.names);
        assert r.singletons.Keys == set m | m in r.names;
      }
    }
    |r.names|
  }

  /** `getSingletonNames()`: the bound names, each once, in first-binding order. */
  function GetSingletonNames(r: Registry): (ns: seq<string>)
    ensures Valid(r) ==> NoDup(ns)
    ensures Valid(r) ==> forall m :: m in ns <==> GetSingleton(r, m).Some?
    ensures Valid(r) ==> |ns| == |r.singletons|
  {
    assert Valid(r) ==> |r.names| == |r.singletons| by {
      if Valid(r) {
        assert GetSingletonCount(r) == |r.names|;
      }
    }
    r.names
  }

  /**
   * `addSingletonCallback(name, callback)`. The callback fires when `n` becomes
   * bound, or at once when `n` is bound already; a callback already registered
   * for `n` is not registered twice.
   */
  function AddSingletonCallback(r: Registry, n: string, h: Handler): (r': Registry)
    ensures h in Handlers(r', n)
    ensures Handlers(r, n) <= Handlers(r', n) && |Handlers(r', n)| <= |Handlers(r, n)| + 1
    ensures forall g :: g in Handlers(r', n) ==> g == h || g in Handlers(r, n)
    ensures r' == r.(callbacks := r'.callbacks, fired := r'.fired)
    ensures forall m :: m != n ==> Handlers(r', m) == Handlers(r, m)
    ensures r'.singletons == r.singletons && r'.names == r.names && r'.destroyed == r.destroyed
    ensures r'.disposers == r.disposers && r'.dependents == r.dependents
    ensures r'.fired == r.fired + if n in r.singletons && h !in Handlers(r, n)
                                  then [Firing(h, n, r.singletons[n])] else []
    ensures Valid(r) ==> Valid(r')
  {
    if h in Handlers(r, n) then r
    else
      var r' := r.(callbacks := r.callbacks[n := Handlers(r, n) + [h]],
                   fired := r.fired + if n in r.singletons then [Firing(h, n, r.singletons[n])] else []);
      assert forall m, g :: Due(r', g, m) && !(m == n && g == h) ==> Due(r, g, m);
      r'
  }

  /** `registerDisposableBean(name, bean)`: a later registration for a name replaces its disposer in place. */
  function RegisterDisposableBean(r: Registry, n: string, d: Obj): (r': Registry)
    ensures n in r'.disposers && r'.disposers[n] == d
    ensures forall m :: m != n ==> (m in r'.disposers <==> m in r.disposers)
    ensures forall m :: m != n && m in r.disposers ==> r'.disposers[m] == r.disposers[m]
    ensures r'.disposableNames == if n in r.disposers then r.disposableNames else r.disposableNames + [n]
    ensures r' == r.(disposers := r'.disposers, disposableNames := r'.disposableNames)
    ensures Valid(r) ==> Valid(r')
  {
    r.(disposers := r.disposers[n := d],
       disposableNames := if n in r.disposers then r.disposableNames else r.disposableNames + [n])
  }

  /** The disposers registered for `ns`, last-registered first. */
  function DisposalOrder(ns: seq<string>, disposers: map<string, Obj>): (ds: seq<Obj>)
    ensures (forall m :: m in ns ==> m in disposers) ==> |ds| == |ns|
    ensures (forall m :: m in ns ==> m in disposers) ==>
      forall i :: 0 <= i < |ns| ==> ds[i] == disposers[ns[|ns| - 1 - i]]
    decreases |ns|
  {
    if |ns| == 0 then []
    else
      var rest := DisposalOrder(ns[..|ns| - 1], disposers);
      if ns[|ns| - 1] in disposers then [disposers[ns[|ns| - 1]]] + rest else rest
  }

  /**
   * `destroySingletons()`: invokes every registered disposer once, last
   * registered first, then clears bindings, callbacks, disposers and the
   * dependency graph.
   */
  function DestroySingletons(r: Registry): (r': Registry)
    ensures Valid(r')
    ensures GetSingletonCount(r') == 0 && GetSingletonNames(r') == []
    ensures forall n :: GetSingleton(r', n).None?
    ensures r'.fired == r.fired
    ensures r.destroyed <= r'.destroyed
    ensures Valid(r) ==> DisposedLog(r.disposableNames, r.disposers, r.destroyed, r'.destroyed)
    ensures r'.disposableNames == [] && r'.disposers == map[] && r'.callbacks == map[]
    ensures forall n, d :: !DependencyGraph.Reaches(r'.dependents, n, d)
  {
    var disposed := DisposalOrder(r.disposableNames, r.disposers);
    var r' := Empty().(fired := r.fired, destroyed := r.destroyed + disposed);
    assert Valid(r) ==> DisposedLog(r.disposableNames, r.disposers, r.destroyed, r'.destroyed) by {
      if Valid(r) {
        DisposalLogComplete(r.disposableNames, r.disposers, r.destroyed);
      }
    }
    r'
  }

  /**
   * `log` extends `before` by one invocation per name of `ns`, last name
   * first, and holds every disposer of `disposers`.
   */
  ghost predicate DisposedLog(ns: seq<string>, disposers: map<string, Obj>, before: seq<Obj>, log: seq<Obj>) {
    && (forall m :: m in ns ==> m in disposers)
    && |log| == |before| + |ns|
    && (forall n :: n in disposers ==> disposers[n] in log[|before|..])
    && (forall j :: |before| <= j < |log| ==> log[j] == disposers[ns[|before| + |ns| - 1 - j]])
  }

  /** Appending the disposal order of names that cover exactly the disposers gives a complete disposal log. */
  lemma DisposalLogComplete(ns: seq<string>, disposers: map<string, Obj>, before: seq<Obj>)
    requires forall m :: m in ns <==> m in disposers
    ensures DisposedLog(ns, disposers, before, before + DisposalOrder(ns, disposers))
  {
    var ds := DisposalOrder(ns, disposers);
    var log := before + ds;
    assert log[|before|..] == ds;
    forall n | n in disposers
      ensures disposers[n] in ds
    {
      var k :| 0 <= k < |ns| && ns[k] == n;
      assert ds[|ns| - 1 - k] == disposers[n];
    }
    forall j | |before| <= j < |log|
      ensures log[j] == disposers[ns[|before| + |ns| - 1 - j]]
    {
      assert log[j] == ds[j - |before|];
    }
  }

  /** `registerDependentBean(name, dependentName)`: records that `dependentName` depends on `name`. */
  function RegisterDependentBean(r: Registry, n: string, dependent: string): (r': Registry)
    ensures forall x, y :: y in DependencyGraph.Dependents(r'.dependents, x) <==>
      y in DependencyGraph.Dependents(r.dependents, x) || (x == n && y == dependent)
    ensures r' == r.(dependents := r'.dependents)
    ensures Valid(r) ==> Valid(r')
  {
    r.(dependents := DependencyGraph.AddEdge(r.dependents, n, dependent))
  }
}
