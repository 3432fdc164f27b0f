/**
 * The three scenarios of the registry's test class, replayed on the model:
 * callbacks and both creation paths, a disposable bean, and a cyclic
 * dependency graph.
 */
module RegistryScenarios {
  import opened Wrappers
  import opened SingletonRegistry
  import DependencyGraph

  const Tb: Obj := 1
  const Tb2: Obj := 2
  const Tb3: Obj := 3
  const TbFlag: Handler := 10
  const Tb2Flag: Handler := 20

  /** Callback for "tb", then `registerSingleton("tb", tb)`. */
  function AfterTb(): Registry {
    var r := AddSingletonCallback(Empty(), "tb", TbFlag);
    match RegisterSingleton(r, "tb", Tb)
    case Success(r') => r'
    case Failure(_) => r
  }

  /** Then a callback for "tb2" and `getSingleton("tb2", TestBean::new)`. */
  function ObtainTb2(): Obtained {
    GetSingletonWith(AddSingletonCallback(AfterTb(), "tb2", Tb2Flag), "tb2", Produces(Tb2))
  }

  /** Then `getSingleton("tb3", factory)` with a factory that registers its own result. */
  function ObtainTb3(): Obtained {
    GetSingletonWith(ObtainTb2().registry, "tb3", RegistersAndReturns(Tb3))
  }

  lemma TbScenario()
    ensures RegisterSingleton(AddSingletonCallback(Empty(), "tb", TbFlag), "tb", Tb).Success?
    ensures GetSingleton(AfterTb(), "tb") == Some(Tb)
    ensures Firing(TbFlag, "tb", Tb) in AfterTb().fired
    ensures Valid(AfterTb()) && AfterTb().names == ["tb"]
  {
    var r0 := AddSingletonCallback(Empty(), "tb", TbFlag);
    assert Handlers(r0, "tb") == [TbFlag];
  }

  lemma Tb2Scenario()
    ensures ObtainTb2().instance == Tb2
    ensures GetSingleton(ObtainTb2().registry, "tb2") == Some(ObtainTb2().instance)
    ensures Firing(Tb2Flag, "tb2", ObtainTb2().instance) in ObtainTb2().registry.fired
    ensures Valid(ObtainTb2().registry) && ObtainTb2().registry.names == ["tb", "tb2"]
  {
    TbScenario();
    var r := AddSingletonCallback(AfterTb(), "tb2", Tb2Flag);
    assert Handlers(r, "tb2") == [Tb2Flag];
  }

  /** "tb3" is bound to what its factory returned, and the three names are listed in creation order. */
  lemma Tb3Scenario()
    ensures ObtainTb3().instance == Tb3
    ensures GetSingleton(ObtainTb3().registry, "tb3") == Some(ObtainTb3().instance)
    ensures Valid(ObtainTb3().registry)
    ensures GetSingletonNames(ObtainTb3().registry) == ["tb", "tb2", "tb3"]
  {
    Tb2Scenario();
    SelfRegisteringFactory(ObtainTb2().registry);
  }

  /** A factory that registers its own result, run for "tb3" after "tb" and "tb2". */
  lemma SelfRegisteringFactory(r: Registry)
    requires Valid(r) && r.names == ["tb", "tb2"]
    ensures GetSingletonWith(r, "tb3", RegistersAndReturns(Tb3)).instance == Tb3
    ensures GetSingleton(GetSingletonWith(r, "tb3", RegistersAndReturns(Tb3)).registry, "tb3") == Some(Tb3)
    ensures Valid(GetSingletonWith(r, "tb3", RegistersAndReturns(Tb3)).registry)
    ensures GetSingletonWith(r, "tb3", RegistersAndReturns(Tb3)).registry.names == ["tb", "tb2", "tb3"]
  {
    assert "tb3" !in r.names;
  }

  /** Three singletons after the three creations; none after teardown. */
  lemma SingletonsScenario()
    ensures GetSingletonCount(ObtainTb3().registry) == 3
    ensures GetSingletonCount(DestroySingletons(ObtainTb3().registry)) == 0
    ensures GetSingletonNames(DestroySingletons(ObtainTb3().registry)) == []
  {
    Tb3Scenario();
    var r3 := ObtainTb3().registry;
    assert |GetSingletonNames(r3)| == 3;
  }

  /** A bean registered as a singleton and as disposable is destroyed by teardown and not before. */
  lemma DisposableBeanScenario()
    ensures
      var r := RegisterDisposableBean(RegisterSingleton(Empty(), "tb", Tb).value, "tb", Tb);
      && GetSingleton(r, "tb") == Some(Tb)
      && GetSingletonCount(r) == 1
      && GetSingletonNames(r) == ["tb"]
      && Tb !in r.destroyed
      && var r' := DestroySingletons(r);
      && GetSingletonCount(r') == 0
      && GetSingletonNames(r') == []
      && Tb in r'.destroyed
  {
    var r := RegisterDisposableBean(RegisterSingleton(Empty(), "tb", Tb).value, "tb", Tb);
    assert Valid(r);
    assert r.disposers["tb"] == Tb;
  }

  /** The edges a -> b, b -> c and c -> b. */
  function ScenarioGraph(): DependencyGraph.Graph {
    var r := RegisterDependentBean(Empty(), "a", "b");
    var r := RegisterDependentBean(r, "b", "c");
    RegisterDependentBean(r, "c", "b").dependents
  }

  /** Reachability in the scenario graph: b and c reach each other and themselves; nothing reaches a. */
  lemma ScenarioGraphReachability()
    ensures
      var g := ScenarioGraph();
      && DependencyGraph.Reaches(g, "a", "b")
      && DependencyGraph.Reaches(g, "b", "c")
      && DependencyGraph.Reaches(g, "c", "b")
      && DependencyGraph.Reaches(g, "a", "c")
      && DependencyGraph.Reaches(g, "b", "b")
      && DependencyGraph.Reaches(g, "c", "c")
      && forall x :: !DependencyGraph.Reaches(g, x, "a")
  {
    var g := ScenarioGraph();
    assert "b" in DependencyGraph.Dependents(g, "a");
    assert "c" in DependencyGraph.Dependents(g, "b");
    assert "b" in DependencyGraph.Dependents(g, "c");
    DependencyGraph.ReachesByEdge(g, "a", "b");
    DependencyGraph.ReachesByEdge(g, "b", "c");
    DependencyGraph.ReachesByEdge(g, "c", "b");
    DependencyGraph.ReachesExtend(g, "a", "b", "c");
    DependencyGraph.ReachesExtend(g, "b", "c", "b");
    DependencyGraph.ReachesExtend(g, "c", "b", "c");
    assert forall x :: "a" !in DependencyGraph.Dependents(g, x);
    assert "a" !in DependencyGraph.Targets(g);
    forall x
      ensures !DependencyGraph.Reaches(g, x, "a")
    {
      DependencyGraph.ReachedHasIncomingEdge(g, x, "a");
    }
  }

  /** The nine `isDependent` queries of the dependency scenario, answered by the traversal. */
  method DependentRegistrationScenario()
    returns (ab: bool, bc: bool, cb: bool, ac: bool, ca: bool, ba: bool, aa: bool, bb: bool, cc: bool)
    ensures ab && bc && cb && ac && bb && cc
    ensures !ca && !ba && !aa
  {
    var g := ScenarioGraph();
    ScenarioGraphReachability();
    ab := DependencyGraph.IsDependent(g, "a", "b");
    bc := DependencyGraph.IsDependent(g, "b", "c");
    cb := DependencyGraph.IsDependent(g, "c", "b");
    ac := DependencyGraph.IsDependent(g, "a", "c");
    ca := DependencyGraph.IsDependent(g, "c", "a");
    ba := DependencyGraph.IsDependent(g, "b", "a");
    aa := DependencyGraph.IsDependent(g, "a", "a");
    bb := DependencyGraph.IsDependent(g, "b", "b");
    cc := DependencyGraph.IsDependent(g, "c", "c");
  }
}
