# A verified model of a small C++ dependency-injection container and a CRTP class registry

This project models, in Dafny, two pieces of a C++ learning repository and proves what they promise.

**The dependency-injection container** (`Cpp/DI_variadic`) has five parts:
- `core::type_map<V>` is an unordered map keyed by types. Each C++ type receives an integer id the first time it asks. The id comes from a static counter of its `type_map<V>` instantiation (`++last_type_id`, so ids start at 1). A `put` for a type that already has an entry throws.
- `core::abstract_instance_container` / `instance_container<T, Deleter>` own one constructed object behind a type-erased raw pointer.
- `injector` is a type map of instance containers. `get_instance` and `inject` resolve a factory's parameters against it.
- `di_config` records instance factories in a dependency graph. Each node holds a mark, a type name, an initializer and the set of its dependents. `build_injector` sorts that graph depth first with UNMARKED/TEMP/PERM marks, throwing on a cycle, then pops the stack of initializers and runs them on a fresh injector.
- `bad_type_map.cpp` is the prototype the type map replaces. Its `Simulation` stores objects by name with insert-once semantics. Its `generate_type_id<T>` takes ids from one global atomic counter with `fetch_add`, so ids start at 0.

**The class registry** (`Cpp/crtp/class_registry.cpp`): `registry<D>` threads every live object of a class `D` onto an intrusive doubly linked list. The list is reached through the statics `count` and `head` of that instantiation. `report<T>()` walks it from `head`.

How C++ is represented:
- C++ types are a generic key type `K`.
- Pointers are `Option` values; `None` is null.
- Exceptions are `Failure`/`Fail` values of `Errors.Error`.
- A constructed service is a value `Service(ty, args)`: the type it was built as and the dependency instances its factory received.
- Each static counter is an object (`TypeIdCounter`) passed to the code that uses it.
- The registry's list is a class `Entry` with `prev`/`next` fields. A ghost sequence `Live` lists the objects from `head` along `next`.
- Hash-table iteration order is an arbitrary choice (`:|`), and every property is proved for every choice.

The declarations of `injector::get_instance` and `inject` have no bodies. Their doc comments (injector.hpp:48-79) say that each parameter is bound to the registered instance of its type, and that a parameter whose type is not registered results in an exception. The model's exception, `UnsatisfiedDependency`, names the missing type and the `Dependent` template argument; the source names no error type. The move assignment of `injector` misspells its member, and `di_config` reaches into the injector's private parts without friendship. The model follows the evident intent in both places.

## Model

| member | source | states |
|---|---|---|
| TypeMap.EmptyTable | Cpp/DI_variadic/type_map.hpp:73-74 | the counter starts at 0 with no id handed out, which is a well-formed table |
| TypeMap.AssignIdEffect | Cpp/DI_variadic/type_map.hpp:61-65 | type_id gives k an id and keeps it, keeps every id already handed out, adds only k, and keeps a table well formed with the new id in 1..last |
| TypeMap.AssignAllKeepsIds | Cpp/DI_variadic/type_map.hpp:62-64 | once a type has an id, any later type_id calls leave it unchanged (the function-local static) |
| TypeMap.AssignAllSnoc | Cpp/DI_variadic/type_map.hpp:61-65 | asking for one more type after a sequence is one more type_id step on the table that sequence produced |
| TypeMap.FreshKeysGetConsecutiveIds | Cpp/DI_variadic/type_map.hpp:62-63 | distinct new types receive last+1, last+2, … in the order they ask, so from a fresh counter the first id is 1, and the table stays injective |
| TypeMap.TypeIdCounter.TableWellFormed | Cpp/DI_variadic/type_map.hpp:62-69 | a valid counter object never hands one id to two types and keeps ids within 1..last_type_id |
| TypeMap.TypeIdCounter.constructor | Cpp/DI_variadic/type_map.hpp:73-74 | last_type_id(0): the counter object starts as the empty table |
| TypeMap.TypeIdCounter.TypeId | Cpp/DI_variadic/type_map.hpp:61-65 | the imperative pre-increment computes exactly the AssignId step and keeps the counter valid |
| TypeMap.TypeMap.constructor | Cpp/DI_variadic/type_map.hpp:67-70 | a new type map is empty over the given static counter |
| TypeMap.TypeMap.Contains | Cpp/DI_variadic/type_map.hpp:58-59 | true exactly when the type has an entry; only the id counter may change |
| TypeMap.TypeMap.Find | Cpp/DI_variadic/type_map.hpp:42-46 | the type's entry, or end() (None) when it has none; the entries are unchanged |
| TypeMap.TypeMap.Put | Cpp/DI_variadic/type_map.hpp:48-56 | insert-once: a present type throws "already present" and changes nothing, otherwise exactly that type's entry is added |
| AbstractObject.InstanceContainer.constructor | Cpp/DI_variadic/abstract_object.hpp:61-64 | raw_ptr_ is p.get() and pointer_ owns the same object |
| AbstractObject.InstanceContainer.MoveFrom | Cpp/DI_variadic/abstract_object.hpp:36-38 | the raw pointer moves over and the source's becomes null |
| AbstractObject.InstanceContainer.Get | Cpp/DI_variadic/abstract_object.hpp:34 | returns the stored raw pointer |
| AbstractObject.InstanceContainer.MoveAssign | Cpp/DI_variadic/abstract_object.hpp:40-44 | copies the source's raw pointer and nulls the source's; ownership fields are untouched |
| AbstractObject.WrapIntoInstanceContainer | Cpp/DI_variadic/abstract_object.hpp:81-85 | a fresh container whose get() is the pointer and which owns it |
| Injector.Resolve | Cpp/DI_variadic/injector.hpp:48-63 | resolution succeeds exactly when every parameter type has an instance, giving those instances in order; otherwise the error names a missing type (the first in parameter order, see Left out) and the dependent |
| Injector.HoldsAfterPut | Cpp/DI_variadic/injector.hpp:83-85 | storing a container that owns obj under t makes obj t's instance, keeping every container's ownership |
| Injector.Injector.constructor | Cpp/DI_variadic/injector.hpp:82 | the private default constructor gives an empty injector |
| Injector.Injector.MoveFrom | Cpp/DI_variadic/injector.hpp:38 | the instance map moves whole to the new injector, and the source is left empty |
| Injector.Injector.MoveAssign | Cpp/DI_variadic/injector.hpp:46 | as the move constructor, for an existing injector |
| Injector.Injector.GetInstance | Cpp/DI_variadic/injector.hpp:48-63 | the instance registered for t, or UnsatisfiedDependency(t, dependent); instances unchanged |
| Injector.Injector.Inject | Cpp/DI_variadic/injector.hpp:65-79 | the loop over the parameters returns exactly Construct(factory, instances): the factory applied to the resolved instances, or the first missing dependency |
| Injector.ResolveStopsAtFirstMissing | Cpp/DI_variadic/injector.hpp:52-56 | when every earlier parameter resolves and parameter m does not, the error names parameter m |
| DependencyGraph.AddEdgesEffect | Cpp/DI_variadic/di_config.hpp:142-145 | the edge loop creates missing dependency nodes and adds the dependent to exactly the listed nodes, changing no other field |
| DependencyGraph.RegisterEffect | Cpp/DI_variadic/di_config.hpp:108-146 | add creates the needed nodes, gives the instance node its initializer and name (the last add wins), makes it a dependent of every dependency, and touches no other initializer |
| DependencyGraph.WellFormedUnderMoreIds | Cpp/DI_variadic/di_config.hpp:113 | ids handed to other types do not disturb a well-formed graph |
| DependencyGraph.RegisterPreservesWellFormed | Cpp/DI_variadic/di_config.hpp:108-146 | add keeps the graph well formed: names go with initializers, initializers are wired to their dependencies, and dependents are registered nodes |
| DependencyGraph.Reverse | Cpp/DI_variadic/di_config.hpp:173-176 | the order a stack is popped in: element k is the (n-1-k)-th pushed |
| DependencyGraph.PopOrderIsTopological | Cpp/DI_variadic/di_config.hpp:173-176 | popping a stack filled in finish order gives a duplicate-free topological order of the same nodes |
| DependencyGraph.WalkMovesForward | Cpp/DI_variadic/di_config.hpp:25-29 | positions in a topological order strictly increase along any walk of dependency edges |
| DependencyGraph.SortedRegisteredNodesRuleOutCycles | Cpp/DI_variadic/di_config.hpp:25-29 | a topological order of the registered nodes of a well-formed graph rules out every dependency cycle |
| Initialization.TypesOfExtend | Cpp/DI_variadic/di_config.hpp:173-176 | each initializer run adds its node's type to those already built |
| Initialization.NextNotBuilt | Cpp/DI_variadic/di_config.hpp:122-125 | in a duplicate-free order, the next initializer's type has not been put yet, so its put does not throw |
| Initialization.DependenciesBuilt | Cpp/DI_variadic/di_config.hpp:151-153 | in a topological order every dependency of the next initializer has already been built |
| Initialization.RunSuffixFailure | Cpp/DI_variadic/di_config.hpp:203-205 | in a topological order the only exception an initializer can throw is the injection error of an unregistered dependency: no type is put twice and every registered dependency is already built |
| Initialization.RunStep | Cpp/DI_variadic/di_config.hpp:173-176 | one popped initializer in a topological order succeeds and keeps every instance assembled |
| Initialization.RunHead | Cpp/DI_variadic/di_config.hpp:122-125 | an initializer whose dependencies are built and whose type is not adds exactly its instance |
| Initialization.RunSuffix | Cpp/DI_variadic/di_config.hpp:173-176 | the remaining initializers of a topological order all succeed and assemble every registered type |
| Initialization.AssembledExtend | Cpp/DI_variadic/di_config.hpp:122-125 | an instance built from assembled dependencies keeps the injector assembled |
| Initialization.SortedRunSucceeds | Cpp/DI_variadic/di_config.hpp:148-178 | when all dependencies are registered, running the initializers in a topological order succeeds, builds exactly the registered types, and gives each the instances of its dependencies |
| Initialization.ListsRegisteredNodes | Cpp/DI_variadic/di_config.hpp:202-207 | a list of exactly the nodes with initializers carries their initializers and exactly the registered types |
| Initialization.RunAllStopsAtNeverBuilt | Cpp/DI_variadic/di_config.hpp:202-205 | an initializer that needs a type no earlier initializer builds makes the run throw |
| Initialization.UnregisteredDependencyFailsRun | Cpp/DI_variadic/di_config.hpp:202-205 | a dependency nobody registered makes the initializers throw in any order, topological or not (which exception comes first depends on the order; for a topological order see SortedRunSucceedsIff) |
| Initialization.SortedRunSucceedsIff | Cpp/DI_variadic/di_config.hpp:148-178 | in a topological order, the initializers succeed exactly when every declared dependency is registered; otherwise they throw the injection error naming an unregistered dependency and a registered service whose factory declares it |
| DiConfig.SameShapeKeepsWellFormed | Cpp/DI_variadic/di_config.hpp:165-168 | changing only marks keeps the graph well formed |
| DiConfig.EnterNode | Cpp/DI_variadic/di_config.hpp:195-197 | marking an UNMARKED node TEMP and erasing it from the unmarked set keeps the sort invariant, with the node on the path of pending calls |
| DiConfig.LeaveNode | Cpp/DI_variadic/di_config.hpp:201-207 | marking it PERM once its dependents are PERM, and pushing it if it has an initializer, keeps the stack in finish order |
| DiConfig.CycleFromPath | Cpp/DI_variadic/di_config.hpp:192-193 | reaching a TEMP node closes a real dependency cycle through it |
| DiConfig.SortStart | Cpp/DI_variadic/di_config.hpp:164-168 | after the reset loop the sort invariant holds with every node unmarked |
| DiConfig.SortDone | Cpp/DI_variadic/di_config.hpp:169-172 | when the unmarked set is empty, every node is PERM and the stack holds exactly the nodes with initializers |
| DiConfig.PopStep | Cpp/DI_variadic/di_config.hpp:173-176 | popping the top runs its initializer before those below it |
| DiConfig.PopOrderRuns | Cpp/DI_variadic/di_config.hpp:160-178 | the pop order of a finished sort is topological and covers exactly the registered nodes, so the graph has no cycle; the run succeeds exactly when all dependencies are registered, fails only with the injection error of an unregistered dependency, and on success builds every registered type, assembled |
| DiConfig.SameShapeInitializers | Cpp/DI_variadic/di_config.hpp:165-168 | graphs differing only in marks list the same initializers |
| DiConfig.CounterInjective | Cpp/DI_variadic/type_map.hpp:61-65 | the node-id counter never gives one id to two types |
| DiConfig.PutInstance | Cpp/DI_variadic/di_config.hpp:123-124 | wrapping the instance and putting it throws "already present" for a type already built, otherwise adds exactly that instance |
| DiConfig.RunInitializer | Cpp/DI_variadic/di_config.hpp:122-125 | running the stored lambda on an injector has exactly the outcome of the Run specification |
| DiConfig.AddEdgeStep | Cpp/DI_variadic/di_config.hpp:142-145 | one more dependency of the edge loop adds the dependent to that dependency's node |
| DiConfig.DiConfig.constructor | Cpp/DI_variadic/di_config.hpp:86 | an empty graph over the node-id counter |
| DiConfig.DiConfig.Add | Cpp/DI_variadic/di_config.hpp:108-146 | add's imperative steps produce exactly Register over the ids handed out, in the order type_id is asked, and keep the graph well formed |
| DiConfig.DiConfig.ToposortVisitNode | Cpp/DI_variadic/di_config.hpp:187-209 | a TEMP node throws the cycle error naming the visited node, which lies on a real cycle; otherwise the node ends PERM with the sort invariant kept and the unmarked set only shrinking |
| DiConfig.DiConfig.VisitDependents | Cpp/DI_variadic/di_config.hpp:198-200 | the loop over the dependents, in hash order, leaves every dependent PERM or stops at the first cycle error |
| DiConfig.DiConfig.ResetMarks | Cpp/DI_variadic/di_config.hpp:164-168 | every node is UNMARKED and the unmarked set is exactly the graph's nodes, nothing else changed |
| DiConfig.DiConfig.SortGraph | Cpp/DI_variadic/di_config.hpp:160-172 | the sort either reports a real cycle naming one of its nodes, or marks every node PERM and fills the stack once with each node that has an initializer, after all of its dependents |
| DiConfig.DiConfig.RunInitializers | Cpp/DI_variadic/di_config.hpp:173-177 | popping and running the initializers has exactly the outcome of running them in pop order |
| DiConfig.DiConfig.BuildInjector | Cpp/DI_variadic/di_config.hpp:160-178 | a cycle aborts the build with an error naming a node on it; otherwise the initializers run in a topological order, the build succeeds exactly when every dependency is registered, a failure is the injection error naming an unregistered dependency and its dependent, and the injector on success holds exactly the registered types, each built from the instances of its dependencies |
| ClassRegistry.Entry.constructor | Cpp/crtp/class_registry.cpp:13-20 | count goes up by one, and the object becomes head with no predecessor and the old head as successor; the list stays well linked and newest first |
| ClassRegistry.Entry.Copy | Cpp/crtp/class_registry.cpp:21-27 | the copy registers exactly like a newly constructed object |
| ClassRegistry.Entry.Destroy | Cpp/crtp/class_registry.cpp:28-33 | count goes down by one and the object is taken out of the list, its neighbours joined and head advanced, the list staying well linked |
| ClassRegistry.StampsDecrease | Cpp/crtp/class_registry.cpp:16-18 | along the list every later object was constructed earlier |
| ClassRegistry.Distinct | Cpp/crtp/class_registry.cpp:16-18 | no object appears twice on the list |
| ClassRegistry.WithoutAt | Cpp/crtp/class_registry.cpp:30-31 | taking out an object where it first occurs leaves the objects before and after it |
| ClassRegistry.WithoutMembers | Cpp/crtp/class_registry.cpp:28-33 | after a destruction exactly the other objects remain, one fewer |
| ClassRegistry.Bypass | Cpp/crtp/class_registry.cpp:30-31 | the predecessor now points forward to the successor and the successor back to the predecessor |
| ClassRegistry.Registry.constructor | Cpp/crtp/class_registry.cpp:39-40 | count 0 and head null: an empty, well-linked list |
| ClassRegistry.Registry.Link | Cpp/crtp/class_registry.cpp:15-19 | the new object goes in front of the list, the old head pointing back to it |
| ClassRegistry.Registry.LinkedIsValid | Cpp/crtp/class_registry.cpp:15-19 | the list with the new object in front is well linked |
| ClassRegistry.Registry.Unlink | Cpp/crtp/class_registry.cpp:29-32 | the k-th object leaves the list, count one lower, links and head repaired |
| ClassRegistry.Registry.Neighbours | Cpp/crtp/class_registry.cpp:30-31 | the prev and next of a listed object are its list neighbours, distinct from it |
| ClassRegistry.Registry.UnlinkedIsValid | Cpp/crtp/class_registry.cpp:29-32 | the list without the k-th object is well linked once its neighbours are joined |
| ClassRegistry.Report | Cpp/crtp/class_registry.cpp:71-78 | the walk from head along next visits every live object exactly once, newest first, and the total printed is their number |
| ClassRegistry.ConstructInOther | Cpp/crtp/class_registry.cpp:7-8 | constructing an object of one class leaves another class's count and head unchanged |
| BadTypeMap.Initial | Cpp/DI_variadic/bad_type_map.cpp:65 | the global counter starts at 0 with no id handed out |
| BadTypeMap.GenerateEffect | Cpp/DI_variadic/bad_type_map.cpp:67-75 | the type gets an id and keeps it, older ids are kept, and the state stays well formed with the new id below the counter |
| BadTypeMap.GenerateStable | Cpp/DI_variadic/bad_type_map.cpp:69-74 | a second call for the same type returns the same id and changes nothing |
| BadTypeMap.GenerateAllKeepsIds | Cpp/DI_variadic/bad_type_map.cpp:69-74 | later calls for any types never change an id already handed out |
| BadTypeMap.GenerateAllConsistent | Cpp/DI_variadic/bad_type_map.cpp:69-74 | every call returns the id its type finally holds, so repeated calls agree |
| BadTypeMap.FreshTypesGetConsecutiveIds | Cpp/DI_variadic/bad_type_map.cpp:73 | distinct new types get counter, counter+1, … in call order (0, 1, … from the start) and no two share an id |
| BadTypeMap.DoubleIntDouble | Cpp/DI_variadic/bad_type_map.cpp:127-129 | double, int, double yield 0, 1, 0 |
| BadTypeMap.TypeIdCounter.StateWellFormed | Cpp/DI_variadic/bad_type_map.cpp:65-75 | the counter object never hands one id to two types |
| BadTypeMap.TypeIdCounter.constructor | Cpp/DI_variadic/bad_type_map.cpp:65 | TypeIdCounter(0) is the initial state |
| BadTypeMap.TypeIdCounter.GenerateTypeId | Cpp/DI_variadic/bad_type_map.cpp:67-75 | the fetch_add step computes exactly Generate and keeps the counter valid |
| BadTypeMap.InsertEffect | Cpp/DI_variadic/bad_type_map.cpp:49-51 | after an insert the name is present holding its first object, and every other name is unchanged |
| BadTypeMap.InsertKeepsFirst | Cpp/DI_variadic/bad_type_map.cpp:49-51 | a second insert under a name changes nothing |
| BadTypeMap.Simulation.constructor | Cpp/DI_variadic/bad_type_map.cpp:53 | a new simulation holds no objects |
| BadTypeMap.Simulation.Get | Cpp/DI_variadic/bad_type_map.cpp:43-47 | requires the name to be present (the assert) and returns its stored pointer, possibly null |
| BadTypeMap.Simulation.AddObject | Cpp/DI_variadic/bad_type_map.cpp:49-51 | the new map is the insert-once update, a null pointer included |
| BadTypeMap.MovedFromPointer | Cpp/DI_variadic/bad_type_map.cpp:81-100 | the pointer added again after being moved is null, so get yields no Object2, while "obj 2" holds Object2(2) |
| Scenarios.AddFirstTwo | Cpp/DI_variadic/app.cpp:43-44 | the two parameterless factories each get a node with no dependents |
| Scenarios.AddThird | Cpp/DI_variadic/app.cpp:45 | Service3's node is created and becomes the one dependent of Service1's and Service2's nodes |
| Scenarios.AppGraphWellFormed | Cpp/DI_variadic/app.cpp:42-45 | the app's graph is well formed, and its registered types are the three services, every dependency among them |
| Scenarios.AppInjector | Cpp/DI_variadic/app.cpp:46 | in any topological order, the initializers give Service1, Service2 and a Service3 built from exactly those two |
| Scenarios.AppHasNoCycle | Cpp/DI_variadic/app.cpp:42-46 | the app's graph has no dependency cycle |
| Scenarios.AppNodeIds | Cpp/DI_variadic/app.cpp:43-45 | the three add calls hand out node ids 1, 2, 3 |
| Scenarios.AppOutcome | Cpp/DI_variadic/app.cpp:46 | build_injector's guarantees, applied to the app graph, force success with the expected instances |
| Scenarios.AppConfig | Cpp/DI_variadic/app.cpp:42-45 | the three add calls on a fresh di_config produce the app graph |
| Scenarios.AppMain | Cpp/DI_variadic/app.cpp:42-46 | build_injector succeeds and holds Service1, Service2 and Service3(Service1, Service2) |
| Scenarios.TypeMapExample | Cpp/DI_variadic/type_map_example.cpp:61-65 | the first two puts succeed, and the put of a second Object2 throws "already present" while the first Object2 stays stored |

## Left out

- Atomicity of the id counters (`std::atomic`, `fetch_add`): the counters are modelled sequentially, which is how the single-threaded core uses them.
- Hash-table iteration order of `graph_`, `unmarked_nodes` and `dependents_`: modelled as an arbitrary choice, and every property holds for any choice. No particular order is fixed.
- C++ type identity: `typeid(...).name()` and `std::remove_const` are not modelled. The type name stored in a node is the type key itself.
- The evaluation order of the `passthru` pack expansion in `add` is unspecified in C++. The model adds the edges and asks `type_id` for the ids in parameter order.
- Deleters, destructors and the unclear `pointer_ = std::move(other)` of `instance_container`'s move assignment (abstract_object.hpp:70-74): ownership is a field, and no destruction happens.
- `instance_container`'s own move constructor and move assignment (abstract_object.hpp:66-74) are not modelled beyond the base part they delegate to.
- `DiConfig.DiConfig.BuildInjector`: the injector is created just before the initializers run rather than first. Nothing observes the difference, since sorting does not touch it.
- `DiConfig.DiConfig.BuildInjector`: the stack holds node ids rather than pointers to the nodes' initializer members. A node id determines its initializer.
- `DiConfig.DiConfig.ToposortVisitNode`: it requires the node to be in the graph. The source's `graph_[node_id]` would create a fresh UNMARKED node for a missing id, but the source only ever passes ids of existing nodes.
- `injector::get_instance` and `inject` have no bodies in the source. They are modelled from their doc comments, and the `Dependent` template argument is the dependent type or None.
- `ClassRegistry.Entry.Destroy`: `count` is `size_t` in the source. The model uses an unbounded integer, and `count == |Live|` keeps it from going below zero.
- Printing and the `base1`/`base2`/`derived` hierarchy of class_registry.cpp are not modelled. The value printed for an object is a field of `Entry`.
- The `main` demonstrations of class_registry.cpp (lines 95-140) are not replayed object by object. The general contracts of the constructors, destructor and `report` state the properties they show.
- In bad_type_map.cpp, `dynamic_cast` and the `method()` printing calls (lines 112-121) are not modelled. Only the null pointer the moved-from `unique_ptr` leaves is.
- The second configuration in app.cpp (lines 48-52) is not modelled. `generic_instance_factory<Service3, Service2, Service1>` passes `Service2*, Service1*` to a constructor that takes `Service1*, Service2*`, so it does not compile.
- Injector.Resolve: the payload of the exception for a missing parameter (`UnsatisfiedDependency(missing, dependent)`) is a modelling choice; the source promises only that an exception is thrown.
- Injector.Resolve: when several parameters are missing, the model reports the first in parameter order. `inject` has no body in the source, and the evaluation order of a pack expansion in a function call is unspecified in C++, so the source fixes only that some missing type is named.
- DiConfig.DiConfig.BuildInjector: factories are total. `Construct` always yields `Service(ty, args)`, so a user factory that throws or returns null is not modelled. The equivalence between success and all dependencies being registered relies on this.
- `registry<D>`'s implicitly declared copy assignment, which would copy `prev`/`next` and corrupt the list, is not modelled.
- TypeMap.TypeIdCounter.TypeId: `last_type_id` is an `int` whose `++` can overflow after 2^31-1 types. The model's counter is unbounded.
- `type_map`'s iterator accessors (`begin`, `end`, `cbegin`, `cend`) are left out; they only expose the underlying map.
