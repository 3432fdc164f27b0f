# Singleton bean registry — a Dafny model

This project models the sequential behaviour of Spring's `DefaultSingletonBeanRegistry`
as its test class `DefaultSingletonBeanRegistryTests` pins it down. The registry has three parts:

- a **singleton store**: names bound to instances, listed in first-binding order, filled by
  `registerSingleton` or by `getSingleton(name, factory)`, read by `getSingleton(name)`,
  `getSingletonCount` and `getSingletonNames`, and emptied by `destroySingletons`;
- **callback and disposal bookkeeping**: callbacks added with `addSingletonCallback` fire when
  their name becomes bound, and disposers added with `registerDisposableBean` run only at
  `destroySingletons`;
- a **dependency graph**: `registerDependentBean(name, dependent)` records an edge
  `name -> dependent`, and `isDependent(a, b)` asks whether `b` is reachable from `a` by one or
  more edges. The graph may be cyclic, so a name is dependent on itself exactly when it lies on a cycle.

The registry is an immutable `Registry` value and every operation is a pure transition
(`singleton_registry.dfy`). Java objects, callbacks and disposers are opaque `nat` identities, so
`isSameAs` is equality of ids. What the outside world observes — an `AtomicBoolean` set by a callback,
a bean's `wasDestroyed()` flag — is kept in two logs inside the state: `fired` and `destroyed`.
A factory is a small datatype. It either returns an instance, or it registers that instance under
the name being created and then returns it.

`isDependent` is a worklist traversal with a visited set (`dependency_graph.dfy`). It terminates
because the set of not-yet-expanded names shrinks. It is proved equal to a declarative predicate:
there is a non-empty path of recorded edges.
`registry_traces.dfy` replays arbitrary call sequences and proves properties that span several calls.
`registry_scenarios.dfy` replays the three test methods.

The implementation class `DefaultSingletonBeanRegistry.java` is not part of this model; only its test
class is. Where the test is silent, the model makes its own choices:
- re-registering the same instance under a bound name succeeds and changes nothing;
- a different instance is rejected with `DuplicateRegistration`;
- a callback added for a name that is already bound fires at once;
- teardown runs disposers last-registered first.

## Model

| member | source | states |
|---|---|---|
| SingletonRegistry.Empty | spring-beans/src/test/java/org/springframework/beans/factory/support/DefaultSingletonBeanRegistryTests.java:35 | a new registry is valid, binds nothing, has fired and destroyed nothing, and has no dependency between any two names |
| SingletonRegistry.RegisterSingleton | spring-beans/src/test/java/org/springframework/beans/factory/support/DefaultSingletonBeanRegistryTests.java:49-51 | registering binds the name to exactly that instance and changes no other binding; the name joins the name list only if it was unbound; the name's pending callbacks fire with the instance; re-registering the same instance succeeds, a different one fails with the bound and the offered instance; the invariant is kept |
| SingletonRegistry.GetSingleton | spring-beans/src/test/java/org/springframework/beans/factory/support/DefaultSingletonBeanRegistryTests.java:51 | a lookup finds a name exactly when it is bound and then returns its instance; in a valid registry it finds exactly the names in the first-binding name list |
| SingletonRegistry.GetSingletonWith | spring-beans/src/test/java/org/springframework/beans/factory/support/DefaultSingletonBeanRegistryTests.java:54-65 | the returned instance is the one the name is bound to afterwards; on a bound name nothing changes and the factory's instance is ignored; on an unbound name the factory's instance is bound, the name is appended once, and its pending callbacks fire once, also when the factory registered the instance itself |
| SingletonRegistry.AddSingletonCallback | spring-beans/src/test/java/org/springframework/beans/factory/support/DefaultSingletonBeanRegistryTests.java:47-48 | the callback is registered for the name after the name's earlier callbacks, which are kept in order; the only entry that can be added is the callback itself; no other name's callbacks change; it fires immediately, exactly once, only if the name is bound and it was not registered before; nothing in the registry but the callbacks and the callback log changes |
| SingletonRegistry.GetSingletonCount | spring-beans/src/test/java/org/springframework/beans/factory/support/DefaultSingletonBeanRegistryTests.java:67 | for a valid registry the count equals the number of bound names |
| SingletonRegistry.GetSingletonNames | spring-beans/src/test/java/org/springframework/beans/factory/support/DefaultSingletonBeanRegistryTests.java:68 | for a valid registry the names are duplicate-free, are exactly the names a lookup finds, and number as many as the count |
| SingletonRegistry.RegisterDisposableBean | spring-beans/src/test/java/org/springframework/beans/factory/support/DefaultSingletonBeanRegistryTests.java:79 | the name's disposer is recorded and other names' disposers are kept; a new name joins the disposal order at the end; bindings, callbacks and the destroyed log are untouched |
| SingletonRegistry.DestroySingletons | spring-beans/src/test/java/org/springframework/beans/factory/support/DefaultSingletonBeanRegistryTests.java:70-72 | afterwards the count is 0, the name list is empty, no lookup finds anything and no name depends on any other; callbacks and disposer registrations are cleared, so a later teardown cannot invoke them again; for a valid registry the destroyed log gains one invocation per registered name, last registered first, covering every registered disposer; the callback log is kept |
| SingletonRegistry.RegisterDependentBean | spring-beans/src/test/java/org/springframework/beans/factory/support/DefaultSingletonBeanRegistryTests.java:95-97 | exactly the edge name -> dependent is added to the graph and nothing else in the registry changes |
| DependencyGraph.AddEdge | spring-beans/src/test/java/org/springframework/beans/factory/support/DefaultSingletonBeanRegistryTests.java:95-97 | the dependents of every name are unchanged except that the dependent is added to the name's dependents |
| DependencyGraph.IsDependent | spring-beans/src/test/java/org/springframework/beans/factory/support/DefaultSingletonBeanRegistryTests.java:98-106 | the traversal answers true exactly when the second name is reachable from the first by a path of one or more recorded edges, and it terminates on cyclic graphs |
| DependencyGraph.ClosedSetContainsReachable | spring-beans/src/test/java/org/springframework/beans/factory/support/DefaultSingletonBeanRegistryTests.java:98-101 | any set that contains a name's direct dependents and is closed under dependents contains every name reachable from it |
| DependencyGraph.ReachesExtend | spring-beans/src/test/java/org/springframework/beans/factory/support/DefaultSingletonBeanRegistryTests.java:101 | reachability extends by one edge, so a -> b and b -> c give a reaching c |
| DependencyGraph.ReachedHasIncomingEdge | spring-beans/src/test/java/org/springframework/beans/factory/support/DefaultSingletonBeanRegistryTests.java:102-104 | a name that is the dependent end of no edge is reachable from nothing, not even from itself |
| RegistryTraces.StepKeepsValid | spring-beans/src/test/java/org/springframework/beans/factory/support/DefaultSingletonBeanRegistryTests.java:35-72 | every call keeps the registry invariant |
| RegistryTraces.RunKeepsValid | spring-beans/src/test/java/org/springframework/beans/factory/support/DefaultSingletonBeanRegistryTests.java:35-72 | any sequence of calls from a valid registry keeps the invariant |
| RegistryTraces.StepNames | spring-beans/src/test/java/org/springframework/beans/factory/support/DefaultSingletonBeanRegistryTests.java:67-68 | one call appends the name it binds unless that name is bound already, teardown empties the list, and other calls leave it unchanged |
| RegistryTraces.NamesInFirstBindingOrder | spring-beans/src/test/java/org/springframework/beans/factory/support/DefaultSingletonBeanRegistryTests.java:67-68 | after any sequence of calls from a fresh registry, the name list is the names bound since the last teardown, deduplicated in the order of their first binding through either path, and the count is their number |
| RegistryTraces.StepDisposableNames | spring-beans/src/test/java/org/springframework/beans/factory/support/DefaultSingletonBeanRegistryTests.java:79 | one call appends the name it registers as disposable unless already registered, teardown empties the disposal order, and other calls leave it unchanged |
| RegistryTraces.DisposablesInRegistrationOrder | spring-beans/src/test/java/org/springframework/beans/factory/support/DefaultSingletonBeanRegistryTests.java:79 | after any calls from a fresh registry, the disposal order is the names registered as disposable since the last teardown, each once, in the order of first registration |
| RegistryTraces.StepHandlers | spring-beans/src/test/java/org/springframework/beans/factory/support/DefaultSingletonBeanRegistryTests.java:47-48 | one call appends a callback added for the name unless already registered for it, teardown clears the name's callbacks, and other calls leave them unchanged |
| RegistryTraces.CallbacksInRegistrationOrder | spring-beans/src/test/java/org/springframework/beans/factory/support/DefaultSingletonBeanRegistryTests.java:47-55 | after any calls from a fresh registry, a name's callbacks are those added for it since the last teardown, each once, in the order of first addition |
| RegistryTraces.StepKeepsBindings | spring-beans/src/test/java/org/springframework/beans/factory/support/DefaultSingletonBeanRegistryTests.java:80-82 | no call except teardown changes or removes an existing binding |
| RegistryTraces.BindingsLastUntilTeardown | spring-beans/src/test/java/org/springframework/beans/factory/support/DefaultSingletonBeanRegistryTests.java:78-82 | repeated lookups of a bound name keep returning the same instance across any calls that are not teardown |
| RegistryTraces.StepKeepsDisposed | spring-beans/src/test/java/org/springframework/beans/factory/support/DefaultSingletonBeanRegistryTests.java:79-85 | no call except teardown invokes a disposer |
| RegistryTraces.DisposersRunOnlyAtTeardown | spring-beans/src/test/java/org/springframework/beans/factory/support/DefaultSingletonBeanRegistryTests.java:79-85 | across any calls that are not teardown the destroyed log stays as it was, so a registered bean is not destroyed by registration or lookup |
| RegistryTraces.StepFiresOnlyNewlyDue | spring-beans/src/test/java/org/springframework/beans/factory/support/DefaultSingletonBeanRegistryTests.java:47-58 | every call only appends to the callback log; the invocations it appends are distinct, and each is of a callback that was not yet due and is now due, with the instance bound now |
| RegistryTraces.StepKeepsDue | spring-beans/src/test/java/org/springframework/beans/factory/support/DefaultSingletonBeanRegistryTests.java:47-58 | a callback that is due stays due, for the same instance, across any call but teardown |
| RegistryTraces.ExtendFiredOnce | spring-beans/src/test/java/org/springframework/beans/factory/support/DefaultSingletonBeanRegistryTests.java:47-58 | a transition that keeps due callbacks due and appends distinct invocations of callbacks not due before keeps the log since a start point free of repeats and made of due invocations |
| RegistryTraces.FiresAtMostOnce | spring-beans/src/test/java/org/springframework/beans/factory/support/DefaultSingletonBeanRegistryTests.java:47-58 | across any calls that are not teardown, the callback log gains no repeated invocation and every invocation it gains is of a callback still due with the instance still bound; so no callback fires twice for one binding |
| RegistryTraces.CallbacksHaveFired | spring-beans/src/test/java/org/springframework/beans/factory/support/DefaultSingletonBeanRegistryTests.java:47-58 | after any calls from a fresh registry, every callback registered for a bound name has fired with that name's instance |
| RegistryScenarios.TbScenario | spring-beans/src/test/java/org/springframework/beans/factory/support/DefaultSingletonBeanRegistryTests.java:47-52 | a callback added for tb before registerSingleton(tb, tb) has fired with tb, and getSingleton(tb) returns tb |
| RegistryScenarios.Tb2Scenario | spring-beans/src/test/java/org/springframework/beans/factory/support/DefaultSingletonBeanRegistryTests.java:54-58 | getSingleton(tb2, factory) binds the factory's instance, fires tb2's callback with it, and getSingleton(tb2) returns it |
| RegistryScenarios.Tb3Scenario | spring-beans/src/test/java/org/springframework/beans/factory/support/DefaultSingletonBeanRegistryTests.java:60-68 | a factory that registers its own result completes without error, getSingleton(tb3) returns what it returned, and the names are tb, tb2, tb3 in that order |
| RegistryScenarios.SelfRegisteringFactory | spring-beans/src/test/java/org/springframework/beans/factory/support/DefaultSingletonBeanRegistryTests.java:60-65 | after tb and tb2, a factory that registers its own result for tb3 returns it, binds tb3 to it, keeps the invariant and appends tb3 to the names |
| RegistryScenarios.SingletonsScenario | spring-beans/src/test/java/org/springframework/beans/factory/support/DefaultSingletonBeanRegistryTests.java:67-72 | three singletons after the three creations; after teardown the count is 0 and the name list is empty |
| RegistryScenarios.DisposableBeanScenario | spring-beans/src/test/java/org/springframework/beans/factory/support/DefaultSingletonBeanRegistryTests.java:76-90 | the registered disposable bean is bound, counted and listed and not destroyed; after teardown the count is 0, the list empty and the bean destroyed |
| RegistryScenarios.ScenarioGraphReachability | spring-beans/src/test/java/org/springframework/beans/factory/support/DefaultSingletonBeanRegistryTests.java:95-106 | for the edges a -> b, b -> c, c -> b: b is reachable from a, c from b, b from c, c from a, b from b and c from c, and a from nothing |
| RegistryScenarios.DependentRegistrationScenario | spring-beans/src/test/java/org/springframework/beans/factory/support/DefaultSingletonBeanRegistryTests.java:95-106 | the traversal answers the nine isDependent queries of the test as the test expects |

## Left out

- Re-registering the same instance under a bound name: the model treats it as a successful no-op; the test does not exercise it.
- A callback added after its name is bound: the model fires it at once; the test does not exercise it.
- Locking and thread safety, and the at-most-once creation race between threads: the model is sequential.
- The in-progress creation set and the circular-creation error: a factory here cannot re-enter `getSingleton` for its own name, so the error cannot arise.
- Factory failures and their wrapping, and aggregated disposer failures: factories and disposers always succeed here.
- Arbitrary factory code: a factory either returns an instance or registers it under the name being created and then returns it; factories that register other names or a different instance are not modelled.
- Disposal ordering by dependency edges: disposers run last-registered first, and dependents are not moved ahead of the names they depend on.
- SingletonRegistry.AddSingletonCallback: registering the same callback id twice for one name counts as one registration, so that callback fires once rather than once per registration.
- SingletonRegistry.GetSingletonWith: a factory that registers an instance different from the one it returns cannot be written, so which instance would win in that case is not stated.
