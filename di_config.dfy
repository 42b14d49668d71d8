/** di_config (Cpp/DI_variadic/di_config.hpp): the client-side registry of instance factories that
    sorts them topologically and builds the injector. */
module DiConfig {
  import opened Wrappers
  import opened Errors
  import opened TypeMap
  import opened AbstractObject
  import opened Injector
  import opened DependencyGraph
  import opened Initialization

  /** Two graphs that differ at most in the sort marks. */
  ghost predicate SameShape<K>(g: Graph<K>, g0: Graph<K>)
  {
    && g.Keys == g0.Keys
    && forall n :: n in g ==>
         && g[n].debugTypeName == g0[n].debugTypeName
         && g[n].initializer == g0[n].initializer
         && g[n].dependents == g0[n].dependents
  }

  lemma SameShapeKeepsWellFormed<K>(g: Graph<K>, g0: Graph<K>, ids: map<K, int>)
    requires SameShape(g, g0) && DependencyGraph.WellFormed(g0, ids)
    ensures DependencyGraph.WellFormed(g, ids)
  {
    forall n | n in g && g[n].initializer.Some? ensures InitializerWired(g, ids, n) {
      assert InitializerWired(g0, ids, n);
      var f := g[n].initializer.value;
      forall i | 0 <= i < |f.deps| ensures n in g[ids[f.deps[i]]].dependents {
        var m := ids[f.deps[i]];
        assert m in g0 && n in g0[m].dependents;
        assert g[m].dependents == g0[m].dependents;
      }
    }
  }

  /** What holds of the marks, the unmarked set and the output stack around every call of
      toposort_visit_node: UNMARKED nodes are the unmarked set, TEMP nodes are the path of
      pending calls (a walk along dependency edges), every dependent of a PERM node is PERM, and
      the stack holds, once each and after all of their dependents, exactly the PERM nodes that
      have an initializer. */
  ghost predicate SortInv<K>(g: Graph<K>, g0: Graph<K>, unmarked: set<int>, path: seq<int>, output: seq<int>)
  {
    && SameShape(g, g0)
    && unmarked <= g.Keys
    && (forall n :: n in g ==> (g[n].mark == Unmarked <==> n in unmarked))
    && (forall n :: n in g ==> (g[n].mark == Temp <==> n in path))
    && (forall i :: 0 <= i < |path| ==> path[i] in g)
    && NoDup(path) && Path(g0, path)
    && (forall n, v :: n in g && g[n].mark == Perm && v in g0[n].dependents ==> v in g && g[v].mark == Perm)
    && NoDup(output) && DependentsFirst(g0, output)
    && (forall n :: n in output <==> n in g && g[n].mark == Perm && g0[n].initializer.Some?)
  }

  ghost predicate DependentsInGraph<K>(g: Graph<K>)
  {
    forall n, v :: n in g && v in g[n].dependents ==> v in g
  }

  /** Marking an UNMARKED node TEMP on entry to toposort_visit_node: it leaves the unmarked set
      and extends the path of pending calls. */
  lemma EnterNode<K>(g: Graph<K>, g0: Graph<K>, unmarked: set<int>, path: seq<int>, output: seq<int>, n: int)
    requires SortInv(g, g0, unmarked, path, output) && n in g && g[n].mark == Unmarked
    requires |path| > 0 ==> n in g0[path[|path| - 1]].dependents
    ensures SortInv(g[n := g[n].(mark := Temp)], g0, unmarked - {n}, path + [n], output)
  {
    var g', path' := g[n := g[n].(mark := Temp)], path + [n];
    assert n !in path;
    forall i | 0 <= i < |path'| - 1 ensures path'[i] in g0 && path'[i + 1] in g0[path'[i]].dependents {
      if i < |path| - 1 {
        assert path'[i] == path[i] && path'[i + 1] == path[i + 1];
      }
    }
    forall m, v | m in g' && g'[m].mark == Perm && v in g0[m].dependents ensures v in g' && g'[v].mark == Perm {
      assert m != n && g[m].mark == Perm;
    }
  }

  /** Marking a TEMP node PERM once all of its dependents are PERM, and pushing it when it has an
      initializer: every dependent of it is already on the stack below it. */
  lemma LeaveNode<K>(g: Graph<K>, g0: Graph<K>, unmarked: set<int>, path: seq<int>, output: seq<int>, n: int)
    requires SortInv(g, g0, unmarked, path + [n], output) && n in g && g[n].mark == Temp
    requires forall v :: v in g0[n].dependents ==> v in g && g[v].mark == Perm
    ensures SortInv(g[n := g[n].(mark := Perm)], g0, unmarked, path,
                    if g0[n].initializer.Some? then output + [n] else output)
  {
    var g', path' := g[n := g[n].(mark := Perm)], path + [n];
    var output' := if g0[n].initializer.Some? then output + [n] else output;
    assert forall i :: 0 <= i < |path| ==> path[i] == path'[i];
    assert path'[|path|] == n;
    assert n !in path;
    assert n !in output;
    forall i | 0 <= i < |path| - 1 ensures path[i] in g0 && path[i + 1] in g0[path[i]].dependents {
      assert path[i] == path'[i] && path[i + 1] == path'[i + 1];
    }
    forall m | m in g' ensures g'[m].mark == Temp <==> m in path {
      if m != n {
        assert m in path' <==> m in path;
      }
    }
    if g0[n].initializer.Some? {
      forall i, j | 0 <= i < |output'| && 0 <= j < |output'| && output'[i] in g0 && output'[j] in g0[output'[i]].dependents
        ensures j < i
      {
        assert forall k :: 0 <= k < |output| ==> output'[k] == output[k] && output[k] in output;
        if i == |output| {
          assert output'[j] != n;
        }
      }
    }
  }

  /** A TEMP node reached from the end of the path of pending calls closes a dependency cycle. */
  lemma CycleFromPath<K>(g0: Graph<K>, path: seq<int>, i: nat, n: int)
    requires Path(g0, path) && i < |path| && path[i] == n
    requires path[|path| - 1] in g0 && n in g0[path[|path| - 1]].dependents
    ensures IsCycle(g0, path[i..] + [n])
  {
    var cycle := path[i..] + [n];
    forall k | 0 <= k < |cycle| - 1 ensures cycle[k] in g0 && cycle[k + 1] in g0[cycle[k]].dependents {
      if k < |path| - i - 1 {
        assert cycle[k] == path[i + k] && cycle[k + 1] == path[i + k + 1];
      }
    }
  }

  /** After the reset loop of build_injector every node is UNMARKED and in the unmarked set. */
  lemma SortStart<K>(g: Graph<K>, g0: Graph<K>)
    requires SameShape(g, g0) && forall n :: n in g ==> g[n].mark == Unmarked
    ensures SortInv(g, g0, g0.Keys, [], [])
  {
  }

  /** Once the unmarked set is empty, every node is PERM and the stack holds exactly the nodes
      with an initializer. */
  lemma SortDone<K>(g: Graph<K>, g0: Graph<K>, output: seq<int>)
    requires SortInv(g, g0, {}, [], output)
    ensures forall n :: n in g ==> g[n].mark == Perm
    ensures forall n :: n in output <==> n in g0 && g0[n].initializer.Some?
  {
    forall n | n in g ensures g[n].mark == Perm {
      assert n !in [];
    }
  }

  /** Popping the top of the stack runs its initializer first, then the ones below it. */
  lemma PopStep<K>(g: Graph<K>, stack: seq<int>, c: map<K, Service<K>>)
    requires HasInitializers(g, stack) && stack != []
    ensures HasInitializers(g, stack[..|stack| - 1])
    ensures RunAll(InitializersOf(g, Reverse(stack)), c) ==
      match Run(g[stack[|stack| - 1]].initializer.value, c)
      case Failure(e) => Failure(e)
      case Success(c') => RunAll(InitializersOf(g, Reverse(stack[..|stack| - 1])), c')
  {
    var rest := stack[..|stack| - 1];
    assert HasInitializers(g, rest) by {
      forall i | 0 <= i < |rest| ensures rest[i] in g && g[rest[i]].initializer.Some? {
        assert rest[i] == stack[i];
      }
    }
    var fs := InitializersOf(g, Reverse(stack));
    assert fs[1..] == InitializersOf(g, Reverse(rest));
  }

  /** The pop order of a finished sort of a well-formed graph: a topological order of exactly
      the nodes with initializers, so the graph has no cycle; running the initializers in that
      order succeeds exactly when every declared dependency has a factory, and then builds
      exactly the registered service types, each from the instances of its dependencies. */
  lemma PopOrderRuns<K>(g: Graph<K>, ids: map<K, int>, output: seq<int>)
    requires DependencyGraph.WellFormed(g, ids) && Injective(ids)
    requires NoDup(output) && DependentsFirst(g, output)
    requires forall n :: n in output <==> n in g && g[n].initializer.Some?
    ensures HasInitializers(g, output)
    ensures var order := Reverse(output);
      && NoDup(order) && DependenciesFirst(g, order)
      && (forall n :: n in order <==> n in g && g[n].initializer.Some?)
      && (forall p :: !IsCycle(g, p))
      && HasInitializers(g, order)
      && (RunAll(InitializersOf(g, order), map[]).Success? <==> AllDependenciesRegistered(g))
      && (RunAll(InitializersOf(g, order), map[]).Failure? ==>
            UnregisteredDependencyError(g, RunAll(InitializersOf(g, order), map[]).error))
      && (RunAll(InitializersOf(g, order), map[]).Success? ==>
            && RunAll(InitializersOf(g, order), map[]).value.Keys == RegisteredTypes(g)
            && Assembled(RunAll(InitializersOf(g, order), map[]).value, g, ids))
  {
    ListsRegisteredNodes(g, output);
    PopOrderIsTopological(g, output);
    var order := Reverse(output);
    forall p ensures !IsCycle(g, p) {
      SortedRegisteredNodesRuleOutCycles(g, ids, order, p);
    }
    SortedRunSucceedsIff(g, ids, order);
    if AllDependenciesRegistered(g) {
      SortedRunSucceeds(g, ids, order);
    }
  }

  /** Graphs of the same shape list the same initializers. */
  lemma SameShapeInitializers<K>(g: Graph<K>, g0: Graph<K>, s: seq<int>)
    requires SameShape(g, g0) && HasInitializers(g0, s)
    ensures HasInitializers(g, s) && InitializersOf(g, s) == InitializersOf(g0, s)
  {
    forall i | 0 <= i < |s| ensures s[i] in g && g[s[i]].initializer == g0[s[i]].initializer {
      var n := s[i];
      assert n in g0 && n in g;
      assert g[n].initializer == g0[n].initializer;
    }
  }

  /** A valid counter never hands one id to two key types. */
  lemma CounterInjective<K>(c: TypeIdCounter<K>)
    requires c.Valid()
    ensures Injective(c.ids)
  {
    c.TableWellFormed();
  }

  /** The second half of the initializer: wrap the new instance into a container and put it
      into the injector's instance map under its type, which throws if the type already has an
      instance. */
  method PutInstance<K(==, !new)>(inj: Injector<K>, t: K, obj: Service<K>) returns (o: Outcome<Error<K>>)
    requires inj.Valid()
    modifies inj, inj.instanceMap, inj.instanceMap.counter
    ensures inj.Valid() && inj.instanceMap == old(inj.instanceMap)
    ensures t in old(inj.Instances) ==> o == Fail(AlreadyPresent(t)) && inj.Instances == old(inj.Instances)
    ensures t !in old(inj.Instances) ==> o.Pass? && inj.Instances == old(inj.Instances)[t := obj]
  {
    var c := WrapIntoInstanceContainer(Some(obj));
    ghost var before := inj.instanceMap.Contents;
    o := inj.instanceMap.Put(t, c);
    if o.Pass? {
      HoldsAfterPut(before, inj.Instances, t, c, obj);
      inj.Instances := inj.Instances[t := obj];
    }
  }

  /** The initializer (the lambda di_config::add stores) run against an injector: inject the
      factory, then put the new instance into the instance map. */
  method RunInitializer<K(==, !new)>(f: Factory<K>, inj: Injector<K>) returns (o: Outcome<Error<K>>)
    requires inj.Valid()
    modifies inj, inj.instanceMap, inj.instanceMap.counter
    ensures inj.Valid() && inj.instanceMap == old(inj.instanceMap)
    ensures Run(f, old(inj.Instances)).Success? ==> o.Pass? && inj.Instances == Run(f, old(inj.Instances)).value
    ensures Run(f, old(inj.Instances)).Failure? ==> o == Fail(Run(f, old(inj.Instances)).error)
  {
    var obj := inj.Inject(f);
    if obj.Failure? {
      return Fail(obj.error);
    }
    o := PutInstance(inj, f.instanceType, obj.value);
  }

  /** One more iteration of add's edge loop: the next dependency's id is appended to the ids
      handled so far, and its node (created if absent) gains the dependent. */
  lemma AddEdgeStep<K>(g1: Graph<K>, ids: map<K, int>, ids': map<K, int>, deps: seq<K>, i: nat, id: int)
    requires i < |deps| && (forall j :: 0 <= j < i ==> deps[j] in ids)
    requires (forall k :: k in ids ==> k in ids' && ids'[k] == ids[k]) && deps[i] in ids'
    ensures forall j :: 0 <= j <= i ==> deps[j] in ids'
    ensures var g := AddEdges(g1, DepIds(ids, deps[..i]), id); var d := ids'[deps[i]];
      AddEdges(g1, DepIds(ids', deps[..i + 1]), id) == g[d := Locate(g, d).(dependents := Locate(g, d).dependents + {id})]
  {
    var before, after := DepIds(ids, deps[..i]), DepIds(ids', deps[..i + 1]);
    assert after == before + [ids'[deps[i]]];
    assert after[..|after| - 1] == before;
  }

  /** One more dependency extends the sequence of types Add has asked ids for. */
  lemma PrefixGrows<K>(x: K, s: seq<K>, i: nat)
    requires i < |s|
    ensures [x] + s[..i + 1] == [x] + s[..i] + [s[i]]
  {
    assert s[..i + 1] == s[..i] + [s[i]];
  }

  class DiConfig<K(==, !new)> {
    /** The static id counter of type_map<node_info>, which numbers the graph's nodes. */
    const nodeIds: TypeIdCounter<K>
    var graph: Graph<K>

    ghost predicate Valid()
      reads this, nodeIds
    {
      nodeIds.Valid() && DependencyGraph.WellFormed(graph, nodeIds.ids)
    }

    constructor (nodeIds: TypeIdCounter<K>)
      requires nodeIds.Valid()
      ensures Valid() && this.nodeIds == nodeIds && graph == map[]
    {
      this.nodeIds := nodeIds;
      graph := map[];
    }

    /** add(instance_factory): takes the id of the instance type, stores the initializer and the
        type name in its node, then, dependency by dependency, takes the dependency's id and adds
        the instance type's node to that node's dependents. */
    method Add(f: Factory<K>)
      requires Valid()
      modifies this, nodeIds
      ensures Valid()
      ensures nodeIds.Table() == AssignAll(old(nodeIds.Table()), [f.instanceType] + f.deps)
      ensures f.instanceType in nodeIds.ids && forall i :: 0 <= i < |f.deps| ==> f.deps[i] in nodeIds.ids
      ensures graph == Register(old(graph), nodeIds.ids, f)
    {
      ghost var t0 := nodeIds.Table();
      var id := nodeIds.TypeId(f.instanceType);
      AssignIdEffect(t0, f.instanceType);
      assert [f.instanceType] == [] + [f.instanceType];
      AssignAllSnoc(t0, [], f.instanceType);
      ghost var g1 := old(graph)[id := Locate(old(graph), id).(debugTypeName := Some(f.instanceType), initializer := Some(f))];
      var node := Locate(graph, id);
      graph := graph[id := node.(debugTypeName := Some(f.instanceType), initializer := Some(f))];
      var i := 0;
      while i < |f.deps|
        invariant 0 <= i <= |f.deps|
        invariant nodeIds.Valid()
        invariant nodeIds.Table() == AssignAll(t0, [f.instanceType] + f.deps[..i])
        invariant forall k :: k in t0.ids ==> k in nodeIds.ids && nodeIds.ids[k] == t0.ids[k]
        invariant f.instanceType in nodeIds.ids && nodeIds.ids[f.instanceType] == id
        invariant forall j :: 0 <= j < i ==> f.deps[j] in nodeIds.ids
        invariant graph == AddEdges(g1, DepIds(nodeIds.ids, f.deps[..i]), id)
      {
        ghost var ids, tb := nodeIds.ids, nodeIds.Table();
        var d := nodeIds.TypeId(f.deps[i]);
        AssignIdEffect(tb, f.deps[i]);
        AssignAllSnoc(t0, [f.instanceType] + f.deps[..i], f.deps[i]);
        PrefixGrows(f.instanceType, f.deps, i);
        AddEdgeStep(g1, ids, nodeIds.ids, f.deps, i, id);
        var dn := Locate(graph, d);
        graph := graph[d := dn.(dependents := dn.dependents + {id})];
        i := i + 1;
      }
      assert f.deps[..i] == f.deps;
      WellFormedUnderMoreIds(old(graph), t0.ids, nodeIds.ids);
      RegisterPreservesWellFormed(old(graph), nodeIds.ids, f);
    }

    /** toposort_visit_node: a TEMP node throws a cycle error naming its type; an UNMARKED node
        is erased from the unmarked set, marked TEMP, its dependents are visited, then it is
        marked PERM and, if it has an initializer, pushed; a PERM node is left alone. path is
        the chain of pending calls and g0 the graph as the sort found it. */
    method ToposortVisitNode(n: int, unmarked: set<int>, ghost path: seq<int>, output: seq<int>, ghost g0: Graph<K>)
      returns (unmarked': set<int>, output': seq<int>, r: Outcome<Error<K>>, ghost cycle: seq<int>)
      requires n in graph && DependentsInGraph(g0) && SortInv(graph, g0, unmarked, path, output)
      requires |path| > 0 ==> n in g0[path[|path| - 1]].dependents
      modifies this
      ensures SameShape(graph, g0)
      ensures r.Fail? ==> IsCycle(g0, cycle) && r.error == CyclicDependency(g0[cycle[0]].debugTypeName)
      ensures old(graph)[n].mark == Temp ==> r == Fail(CyclicDependency(g0[n].debugTypeName)) && cycle[0] == n
      ensures r.Pass? ==> SortInv(graph, g0, unmarked', path, output') && graph[n].mark == Perm && unmarked' <= unmarked
      decreases unmarked, 1
    {
      unmarked', output', r, cycle := unmarked, output, Pass, [];
      var info := graph[n];
      if info.mark == Temp {
        ghost var i :| 0 <= i < |path| && path[i] == n;
        CycleFromPath(g0, path, i, n);
        cycle := path[i..] + [n];
        r := Fail(CyclicDependency(info.debugTypeName));
      } else if info.mark == Unmarked {
        EnterNode(graph, g0, unmarked, path, output, n);
        graph := graph[n := info.(mark := Temp)];
        unmarked', output', r, cycle := VisitDependents(n, unmarked - {n}, path + [n], output, g0, unmarked);
        if r.Pass? {
          LeaveNode(graph, g0, unmarked', path, output', n);
          graph := graph[n := graph[n].(mark := Perm)];
          if info.initializer.Some? {
            output' := output' + [n];
          }
        }
      }
    }

    /** The loop of toposort_visit_node over the dependents of the TEMP node n, in hash order;
        the first cycle error stops it. On success every dependent of n is PERM. bound is the
        unmarked set toposort_visit_node was called with. */
    method VisitDependents(n: int, unmarked: set<int>, ghost path: seq<int>, output: seq<int>, ghost g0: Graph<K>,
                           ghost bound: set<int>)
      returns (unmarked': set<int>, output': seq<int>, r: Outcome<Error<K>>, ghost cycle: seq<int>)
      requires n in bound && unmarked <= bound - {n}
      requires DependentsInGraph(g0) && SortInv(graph, g0, unmarked, path, output)
      requires |path| > 0 && path[|path| - 1] == n && n in graph && graph[n].mark == Temp
      modifies this
      ensures SameShape(graph, g0)
      ensures r.Fail? ==> IsCycle(g0, cycle) && r.error == CyclicDependency(g0[cycle[0]].debugTypeName)
      ensures r.Pass? ==> SortInv(graph, g0, unmarked', path, output') && unmarked' <= unmarked
      ensures r.Pass? ==> graph[n].mark == Temp && forall v :: v in g0[n].dependents ==> v in graph && graph[v].mark == Perm
      decreases bound, 0
    {
      unmarked', output', r, cycle := unmarked, output, Pass, [];
      var todo := graph[n].dependents;
      while exists v :: v in todo
        invariant todo <= g0[n].dependents
        invariant SortInv(graph, g0, unmarked', path, output') && graph[n].mark == Temp
        invariant unmarked' <= unmarked
        invariant forall v :: v in g0[n].dependents - todo ==> v in graph && graph[v].mark == Perm
        decreases todo
      {
        var v :| v in todo;
        var res;
        ghost var before := graph;
        ghost var c;
        unmarked', output', res, c := ToposortVisitNode(v, unmarked', path, output', g0);
        if res.Fail? {
          r, cycle := res, c;
          return;
        }
        assert forall m :: m in before && before[m].mark == Perm ==> graph[m].mark == Perm;
        todo := todo - {v};
      }
    }

    /** The first loop of build_injector: every node, in hash order, is marked UNMARKED and
        put in the unmarked set. */
    method ResetMarks() returns (unmarked: set<int>)
      modifies this
      ensures SameShape(graph, old(graph)) && unmarked == graph.Keys
      ensures forall n :: n in graph ==> graph[n].mark == Unmarked
    {
      ghost var g0 := graph;
      unmarked := {};
      var todo := graph.Keys;
      while exists v :: v in todo
        invariant todo <= g0.Keys && SameShape(graph, g0)
        invariant unmarked == g0.Keys - todo
        invariant forall n :: n in graph && n !in todo ==> graph[n].mark == Unmarked
        decreases todo
      {
        var n :| n in todo;
        graph := graph[n := graph[n].(mark := Unmarked)];
        unmarked := unmarked + {n};
        todo := todo - {n};
      }
    }

    /** The sorting half of build_injector: every mark is reset to UNMARKED, then
        toposort_visit_node runs from unmarked nodes taken in hash order until none is left. On
        success every node is PERM and the stack holds each node with an initializer once, after
        all of its dependents; otherwise the error names a node of the cycle found. */
    method SortGraph() returns (output: seq<int>, r: Outcome<Error<K>>, ghost cycle: seq<int>)
      requires Valid()
      modifies this
      ensures Valid() && SameShape(graph, old(graph))
      ensures r.Fail? ==> IsCycle(old(graph), cycle) && r.error == CyclicDependency(old(graph)[cycle[0]].debugTypeName)
      ensures r.Pass? ==>
        && (forall n :: n in graph ==> graph[n].mark == Perm)
        && NoDup(output) && DependentsFirst(old(graph), output)
        && (forall n :: n in output <==> n in old(graph) && old(graph)[n].initializer.Some?)
    {
      ghost var g0 := graph;
      output, r, cycle := [], Pass, [];
      var unmarked := ResetMarks();
      SortStart(graph, g0);
      while exists v :: v in unmarked
        invariant SortInv(graph, g0, unmarked, [], output) && r == Pass
        decreases unmarked
      {
        var n :| n in unmarked;
        ghost var c;
        unmarked, output, r, c := ToposortVisitNode(n, unmarked, [], output, g0);
        if r.Fail? {
          SameShapeKeepsWellFormed(graph, g0, nodeIds.ids);
          cycle := c;
          return;
        }
      }
      SortDone(graph, g0, output);
      SameShapeKeepsWellFormed(graph, g0, nodeIds.ids);
    }

    /** The running half of build_injector: on a new injector whose instance ids come from
        instanceIds, pop the stack, calling each initializer, until it is empty or an
        initializer throws. The outcome is that of running the initializers in pop order from
        no instances. */
    method RunInitializers(stack: seq<int>, instanceIds: TypeIdCounter<K>) returns (r: Result<Injector<K>, Error<K>>)
      requires instanceIds.Valid() && HasInitializers(graph, stack)
      modifies instanceIds
      ensures r.Success? ==> fresh(r.value) && r.value.Valid() && r.value.instanceMap.counter == instanceIds
      ensures RunAll(InitializersOf(graph, Reverse(stack)), map[]) ==
        if r.Success? then Success(r.value.Instances) else Failure(r.error)
    {
      var inj := new Injector(instanceIds);
      ghost var goal := RunAll(InitializersOf(graph, Reverse(stack)), inj.Instances);
      var rest := stack;
      while rest != []
        invariant fresh(inj) && fresh(inj.instanceMap) && inj.instanceMap.counter == instanceIds && inj.Valid()
        invariant HasInitializers(graph, rest)
        invariant RunAll(InitializersOf(graph, Reverse(rest)), inj.Instances) == goal
        decreases |rest|
      {
        PopStep(graph, rest, inj.Instances);
        var o := RunInitializer(graph[rest[|rest| - 1]].initializer.value, inj);
        if o.Fail? {
          r := Failure(o.error);
          return;
        }
        rest := rest[..|rest| - 1];
      }
      r := Success(inj);
    }

    /** build_injector: sort (a cycle aborts the build with its error), then run the
        initializers in pop order on a fresh injector whose instance ids come from instanceIds;
        the first initializer that throws aborts the build. order is the pop order and cycle the
        cycle found, if any. */
    method BuildInjector(instanceIds: TypeIdCounter<K>) returns (r: Result<Injector<K>, Error<K>>, ghost order: seq<int>, ghost cycle: seq<int>)
      requires Valid() && instanceIds.Valid() && instanceIds != nodeIds
      modifies this, instanceIds
      ensures Valid() && SameShape(graph, old(graph))
      ensures cycle != [] ==>
        && IsCycle(old(graph), cycle)
        && r == Failure(CyclicDependency(old(graph)[cycle[0]].debugTypeName))
        && instanceIds.Table() == old(instanceIds.Table())
      ensures cycle == [] ==>
        && (forall n :: n in graph ==> graph[n].mark == Perm)
        && NoDup(order) && DependenciesFirst(old(graph), order)
        && (forall n :: n in order <==> n in old(graph) && old(graph)[n].initializer.Some?)
        && (forall p :: !IsCycle(old(graph), p))
        && HasInitializers(old(graph), order)
        && (r.Success? <==> AllDependenciesRegistered(old(graph)))
        && (r.Failure? ==> RunAll(InitializersOf(old(graph), order), map[]) == Failure(r.error))
        && (r.Failure? ==> UnregisteredDependencyError(old(graph), r.error))
      ensures r.Success? ==>
        && cycle == [] && fresh(r.value) && r.value.Valid() && r.value.instanceMap.counter == instanceIds
        && RunAll(InitializersOf(old(graph), order), map[]) == Success(r.value.Instances)
        && r.value.Instances.Keys == RegisteredTypes(old(graph))
        && Assembled(r.value.Instances, old(graph), nodeIds.ids)
    {
      ghost var g0 := graph;
      order := [];
      var output, sorted, c := SortGraph();
      if sorted.Fail? {
        r, cycle := Failure(sorted.error), c;
        return;
      }
      cycle := [];
      order := Reverse(output);
      CounterInjective(nodeIds);
      PopOrderRuns(g0, nodeIds.ids, output);
      SameShapeInitializers(graph, g0, order);
      SameShapeInitializers(graph, g0, output);
      r := RunInitializers(output, instanceIds);
    }
  }
}
