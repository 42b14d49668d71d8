/** The two drivers of the container: Cpp/DI_variadic/app.cpp, which registers Service3 with
    dependencies Service1 and Service2 and builds an injector, and
    Cpp/DI_variadic/type_map_example.cpp, which puts a second Object2 into a type map (its
    objects are those of the prototype in BadTypeMap). */
module Scenarios {
  import opened Wrappers
  import opened Errors
  import opened TypeMap
  import opened Injector
  import opened DependencyGraph
  import opened Initialization
  import opened DiConfig
  import BadTypeMap

  /** The node ids type_map<node_info>::type_id hands out when the three factories are added
      in the order of main. */
  function AppIds<K>(s1: K, s2: K, s3: K): map<K, int>
  {
    map[s1 := 1, s2 := 2, s3 := 3]
  }

  /** A node registered for type t with factory f and the given dependents. */
  function Node<K>(t: K, f: Factory<K>, dependents: set<int>): NodeInfo<K>
  {
    NodeInfo(Unmarked, Some(t), Some(f), dependents)
  }

  /** The graph after cfg.add(Service1Factory), cfg.add(Service2Factory), cfg.add(Service3Factory):
      Service1 and Service2 each have Service3 as their one dependent, Service3 has none. */
  function AppGraph<K>(s1: K, s2: K, s3: K): Graph<K>
  {
    map[1 := Node(s1, Factory(s1, []), {3}), 2 := Node(s2, Factory(s2, []), {3}),
        3 := Node(s3, Factory(s3, [s1, s2]), {})]
  }

  /** The first two add calls: each factory without parameters gets a node of its own. */
  lemma AddFirstTwo<K>(s1: K, s2: K, ids: map<K, int>)
    requires s1 in ids && s2 in ids && ids[s1] == 1 && ids[s2] == 2
    ensures Register(map[], ids, Factory(s1, [])) == map[1 := Node(s1, Factory(s1, []), {})]
    ensures Register(map[1 := Node(s1, Factory(s1, []), {})], ids, Factory(s2, []))
         == map[1 := Node(s1, Factory(s1, []), {}), 2 := Node(s2, Factory(s2, []), {})]
  {
    assert DepIds(ids, []) == [];
  }

  /** The third add call: Service3's node is created and becomes the dependent of Service1's
      and Service2's nodes. */
  lemma AddThird<K>(s1: K, s2: K, s3: K, ids: map<K, int>)
    requires s1 in ids && s2 in ids && s3 in ids && ids[s1] == 1 && ids[s2] == 2 && ids[s3] == 3
    ensures Register(map[1 := Node(s1, Factory(s1, []), {}), 2 := Node(s2, Factory(s2, []), {})],
                     ids, Factory(s3, [s1, s2]))
         == AppGraph(s1, s2, s3)
  {
    var g1 := map[1 := Node(s1, Factory(s1, []), {}), 2 := Node(s2, Factory(s2, []), {}),
                  3 := Node(s3, Factory(s3, [s1, s2]), {})];
    assert DepIds(ids, [s1, s2]) == [1, 2];
    assert [1, 2][..1] == [1] && [1][..0] == [];
    var a1 := AddEdges(g1, [1], 3);
    assert a1 == g1[1 := Locate(g1, 1).(dependents := Locate(g1, 1).dependents + {3})];
    assert Locate(g1, 1).dependents + {3} == {3};
    assert a1 == g1[1 := Node(s1, Factory(s1, []), {3})];
    var a2 := AddEdges(g1, [1, 2], 3);
    assert a2 == a1[2 := Locate(a1, 2).(dependents := Locate(a1, 2).dependents + {3})];
    assert Locate(a1, 2).dependents + {3} == {3};
  }

  /** The graph is well formed and every dependency is registered. */
  lemma AppGraphWellFormed<K>(s1: K, s2: K, s3: K)
    requires s1 != s2 && s1 != s3 && s2 != s3
    ensures DependencyGraph.WellFormed(AppGraph(s1, s2, s3), AppIds(s1, s2, s3))
    ensures AllDependenciesRegistered(AppGraph(s1, s2, s3))
    ensures RegisteredTypes(AppGraph(s1, s2, s3)) == {s1, s2, s3}
  {
    var g, ids := AppGraph(s1, s2, s3), AppIds(s1, s2, s3);
    assert InitializerWired(g, ids, 1) && InitializerWired(g, ids, 2);
    assert InitializerWired(g, ids, 3);
    assert g[1].initializer.value.instanceType == s1;
    assert g[2].initializer.value.instanceType == s2;
    assert g[3].initializer.value.instanceType == s3;
  }

  /** Whatever order the sort picks among the topological orders, build_injector gives an
      injector holding Service1, Service2 and a Service3 built from exactly those two. */
  lemma AppInjector<K>(s1: K, s2: K, s3: K, order: seq<int>)
    requires s1 != s2 && s1 != s3 && s2 != s3
    requires NoDup(order) && DependenciesFirst(AppGraph(s1, s2, s3), order)
    requires forall n :: n in order <==> n in AppGraph(s1, s2, s3) && AppGraph(s1, s2, s3)[n].initializer.Some?
    ensures HasInitializers(AppGraph(s1, s2, s3), order)
    ensures RunAll(InitializersOf(AppGraph(s1, s2, s3), order), map[]) ==
      Success(map[s1 := Service(s1, []), s2 := Service(s2, []), s3 := Service(s3, [Service(s1, []), Service(s2, [])])])
  {
    var g, ids := AppGraph(s1, s2, s3), AppIds(s1, s2, s3);
    AppGraphWellFormed(s1, s2, s3);
    SortedRunSucceeds(g, ids, order);
    var c := RunAll(InitializersOf(g, order), map[]).value;
    assert ids[s1] == 1 && ids[s2] == 2 && ids[s3] == 3;
    assert c.Keys == {s1, s2, s3};
    assert c[s1].ty == s1 && |c[s1].args| == 0;
    assert c[s2].ty == s2 && |c[s2].args| == 0;
    assert c[s3].ty == s3 && |c[s3].args| == 2 && c[s3].args[0] == c[s1] && c[s3].args[1] == c[s2];
    assert c[s1] == Service(s1, []) && c[s2] == Service(s2, []);
    assert c[s3] == Service(s3, [c[s1], c[s2]]);
    assert c == map[s1 := c[s1], s2 := c[s2], s3 := c[s3]];
  }

  /** Service1, Service2, Service3 is a topological order of the graph, so it has no cycle and
      the sort cannot report one. */
  lemma AppHasNoCycle<K>(s1: K, s2: K, s3: K)
    requires s1 != s2 && s1 != s3 && s2 != s3
    ensures forall p :: !IsCycle(AppGraph(s1, s2, s3), p)
  {
    var g := AppGraph(s1, s2, s3);
    AppGraphWellFormed(s1, s2, s3);
    assert DependenciesFirst(g, [1, 2, 3]);
    forall p ensures !IsCycle(g, p) {
      SortedRegisteredNodesRuleOutCycles(g, AppIds(s1, s2, s3), [1, 2, 3], p);
    }
  }

  /** The ids type_id hands out across the three add calls: Service1 and Service2 get 1 and 2,
      and Service3 gets 3 before its parameters are looked up again. */
  lemma AppNodeIds<K>(s1: K, s2: K, s3: K)
    requires s1 != s2 && s1 != s3 && s2 != s3
    ensures var t1 := AssignAll(EmptyTable(), [s1]);
      && t1 == IdTable(map[s1 := 1], 1)
      && AssignAll(t1, [s2]) == IdTable(map[s1 := 1, s2 := 2], 2)
      && AssignAll(IdTable(map[s1 := 1, s2 := 2], 2), [s3, s1, s2]) == IdTable(AppIds(s1, s2, s3), 3)
  {
    var t2 := IdTable(map[s1 := 1, s2 := 2], 2);
    var t3 := AssignId(t2, s3).1;
    assert t3 == IdTable(AppIds(s1, s2, s3), 3);
    assert [s3, s1, s2][1..] == [s1, s2] && [s1, s2][1..] == [s2];
    assert AssignId(t3, s1).1 == t3 && AssignId(t3, s2).1 == t3;
    assert AssignAll(t3, [s2]) == t3;
  }

  /** The three add calls of main in app.cpp, on a fresh di_config, and the static counter that
      will number the injector's instances. */
  method AppConfig<K(==, !new)>(s1: K, s2: K, s3: K) returns (cfg: DiConfig<K>, instanceIds: TypeIdCounter<K>)
    requires s1 != s2 && s1 != s3 && s2 != s3
    ensures fresh(cfg) && fresh(cfg.nodeIds) && fresh(instanceIds)
    ensures cfg.Valid() && instanceIds.Valid() && instanceIds != cfg.nodeIds && cfg.graph == AppGraph(s1, s2, s3)
  {
    var nodeIds := new TypeIdCounter<K>();
    instanceIds := new TypeIdCounter<K>();
    cfg := new DiConfig(nodeIds);
    AppNodeIds(s1, s2, s3);
    cfg.Add(Factory(s1, []));
    cfg.Add(Factory(s2, []));
    AddFirstTwo(s1, s2, nodeIds.ids);
    assert cfg.graph == map[1 := Node(s1, Factory(s1, []), {}), 2 := Node(s2, Factory(s2, []), {})];
    assert [s3] + [s1, s2] == [s3, s1, s2];
    cfg.Add(Factory(s3, [s1, s2]));
    AddThird(s1, s2, s3, nodeIds.ids);
  }

  /** What build_injector promises, applied to the app graph: no cycle is found, and the run
      succeeds with Service1, Service2 and a Service3 built from those two. */
  lemma AppOutcome<K>(s1: K, s2: K, s3: K, order: seq<int>, cycle: seq<int>, ok: bool, instances: map<K, Service<K>>)
    requires s1 != s2 && s1 != s3 && s2 != s3
    requires cycle != [] ==> IsCycle(AppGraph(s1, s2, s3), cycle)
    requires cycle == [] ==>
      && NoDup(order) && DependenciesFirst(AppGraph(s1, s2, s3), order)
      && (forall n :: n in order <==> n in AppGraph(s1, s2, s3) && AppGraph(s1, s2, s3)[n].initializer.Some?)
      && (ok <==> AllDependenciesRegistered(AppGraph(s1, s2, s3)))
    requires ok ==>
      && cycle == [] && HasInitializers(AppGraph(s1, s2, s3), order)
      && RunAll(InitializersOf(AppGraph(s1, s2, s3), order), map[]) == Success(instances)
    ensures ok
    ensures instances ==
      map[s1 := Service(s1, []), s2 := Service(s2, []), s3 := Service(s3, [Service(s1, []), Service(s2, [])])]
  {
    AppHasNoCycle(s1, s2, s3);
    AppGraphWellFormed(s1, s2, s3);
    AppInjector(s1, s2, s3, order);
  }

  /** main of app.cpp, first half: the three add calls and build_injector. The build succeeds,
      and the injector holds Service1, Service2 and a Service3 built from those two. */
  method AppMain<K(==, !new)>(s1: K, s2: K, s3: K) returns (r: Result<Injector<K>, Error<K>>)
    requires s1 != s2 && s1 != s3 && s2 != s3
    ensures r.Success?
    ensures r.value.Instances ==
      map[s1 := Service(s1, []), s2 := Service(s2, []), s3 := Service(s3, [Service(s1, []), Service(s2, [])])]
  {
    var cfg, instanceIds := AppConfig(s1, s2, s3);
    ghost var order, cycle;
    r, order, cycle := cfg.BuildInjector(instanceIds);
    AppOutcome(s1, s2, s3, order, cycle, r.Success?, if r.Success? then r.value.Instances else map[]);
  }

  /** main of type_map_example.cpp: Object1 and Object2(2) go into a type map of objects, and
      the next put of an Object2 throws "already present", which ends the program before its
      get calls. kept is not something the program observes: it checks Put's promise that a
      throwing put leaves the map as it was, so Object2(2) is still stored. */
  method TypeMapExample<K(==, !new)>(object1: K, object2: K)
    returns (first: Outcome<Error<K>>, second: Outcome<Error<K>>, third: Outcome<Error<K>>, kept: Option<BadTypeMap.AbstractObject>)
    requires object1 != object2
    ensures first == Pass && second == Pass && third == Fail(AlreadyPresent(object2))
    ensures kept == Some(BadTypeMap.Object2(2))
  {
    var counter := new TypeIdCounter<K>();
    var objects := new TypeMap<K, BadTypeMap.AbstractObject>(counter);
    first := objects.Put(object1, BadTypeMap.Object1);
    second := objects.Put(object2, BadTypeMap.Object2(2));
    third := objects.Put(object2, BadTypeMap.Object2(3));
    kept := objects.Find(object2);
  }
}
