/** The dependency graph of di_config (Cpp/DI_variadic/di_config.hpp): one node_info per service
    type, keyed by the type's id, with an edge from each dependency to each of its dependents. */
module DependencyGraph {
  import opened Wrappers
  import opened Injector

  /** node_info::mark, used by the topological sort. */
  datatype Mark = Unmarked | Temp | Perm

  /** node_info: the sort mark, the service's type name for diagnostics, the initializer (None
      stands for has_initializer_ == false) and the ids of the nodes that depend on this one. */
  datatype NodeInfo<K> = NodeInfo(mark: Mark, debugTypeName: Option<K>, initializer: Option<Factory<K>>, dependents: set<int>)

  /** graph_: node id to node. */
  type Graph<K> = map<int, NodeInfo<K>>

  /** The node that graph_[id] value-initialises on a miss: UNMARKED (the zero enumerator),
      no name, no initializer, no dependents. */
  function NewNode<K>(): NodeInfo<K>
  {
    NodeInfo(Unmarked, None, None, {})
  }

  /** graph_[id] as an rvalue: the node, created on demand. */
  function Locate<K>(g: Graph<K>, id: int): NodeInfo<K>
  {
    if id in g then g[id] else NewNode()
  }

  /** The ids of a factory's parameter types. */
  function DepIds<K>(ids: map<K, int>, deps: seq<K>): (r: seq<int>)
    requires forall i :: 0 <= i < |deps| ==> deps[i] in ids
    ensures |r| == |deps| && forall i :: 0 <= i < |deps| ==> r[i] == ids[deps[i]]
  {
    seq(|deps|, i requires 0 <= i < |deps| => ids[deps[i]])
  }

  /** graph_[dep].dependents_.insert(dependent) for each dep of depIds in turn. */
  function AddEdges<K>(g: Graph<K>, depIds: seq<int>, dependent: int): Graph<K>
    decreases |depIds|
  {
    if depIds == [] then g
    else
      var g' := AddEdges(g, depIds[..|depIds| - 1], dependent);
      var d := depIds[|depIds| - 1];
      g'[d := Locate(g', d).(dependents := Locate(g', d).dependents + {dependent})]
  }

  /** Adding edges creates the dependency nodes that are missing, adds the dependent to the
      dependents of exactly the listed nodes, and changes nothing else. */
  lemma {:induction false} AddEdgesEffect<K>(g: Graph<K>, depIds: seq<int>, dependent: int)
    ensures AddEdges(g, depIds, dependent).Keys == g.Keys + (set d | d in depIds)
    ensures forall n :: n in AddEdges(g, depIds, dependent) ==>
      && AddEdges(g, depIds, dependent)[n].mark == Locate(g, n).mark
      && AddEdges(g, depIds, dependent)[n].debugTypeName == Locate(g, n).debugTypeName
      && AddEdges(g, depIds, dependent)[n].initializer == Locate(g, n).initializer
      && AddEdges(g, depIds, dependent)[n].dependents
         == Locate(g, n).dependents + (if n in depIds then {dependent} else {})
    decreases |depIds|
  {
    if depIds != [] {
      var front := depIds[..|depIds| - 1];
      AddEdgesEffect(g, front, dependent);
      assert forall d :: d in depIds <==> d in front || d == depIds[|depIds| - 1];
    }
  }

  /** di_config::add on the graph, once the ids are known: the InstanceType node (created if
      absent) gets the initializer and the type name, then every dependency node (created if
      absent) gets the InstanceType node among its dependents. */
  function Register<K>(g: Graph<K>, ids: map<K, int>, f: Factory<K>): Graph<K>
    requires f.instanceType in ids && forall i :: 0 <= i < |f.deps| ==> f.deps[i] in ids
  {
    var id := ids[f.instanceType];
    var g1 := g[id := Locate(g, id).(debugTypeName := Some(f.instanceType), initializer := Some(f))];
    AddEdges(g1, DepIds(ids, f.deps), id)
  }

  /** Registration creates the InstanceType node and the dependency nodes as needed, overwrites
      the InstanceType node's initializer (last registration wins), makes it a dependent of every
      declared dependency, only ever grows dependents sets and leaves other initializers alone. */
  lemma RegisterEffect<K>(g: Graph<K>, ids: map<K, int>, f: Factory<K>)
    requires f.instanceType in ids && forall i :: 0 <= i < |f.deps| ==> f.deps[i] in ids
    ensures var r, id := Register(g, ids, f), ids[f.instanceType];
      && r.Keys == g.Keys + {id} + (set i | 0 <= i < |f.deps| :: ids[f.deps[i]])
      && r[id].initializer == Some(f) && r[id].debugTypeName == Some(f.instanceType)
      && (forall i :: 0 <= i < |f.deps| ==> id in r[ids[f.deps[i]]].dependents)
      && (forall n :: n in g ==> g[n].dependents <= r[n].dependents && r[n].mark == g[n].mark)
      && (forall n :: n in r && n != id ==>
            r[n].initializer == Locate(g, n).initializer && r[n].debugTypeName == Locate(g, n).debugTypeName)
      && (forall n :: n in r ==> r[n].dependents <= Locate(g, n).dependents + {id})
  {
    var id := ids[f.instanceType];
    var g1 := g[id := Locate(g, id).(debugTypeName := Some(f.instanceType), initializer := Some(f))];
    var depIds := DepIds(ids, f.deps);
    AddEdgesEffect(g1, depIds, id);
    assert (set d | d in depIds) == (set i | 0 <= i < |f.deps| :: ids[f.deps[i]]) by {
      forall d | d in depIds ensures d in (set i | 0 <= i < |f.deps| :: ids[f.deps[i]]) {
        var i :| 0 <= i < |depIds| && depIds[i] == d;
      }
    }
    forall i | 0 <= i < |f.deps| ensures id in Register(g, ids, f)[ids[f.deps[i]]].dependents {
      assert depIds[i] in depIds;
    }
  }

  /** The node with an initializer sits under its own type's id, and each declared dependency's
      node exists and lists it as a dependent. */
  ghost predicate InitializerWired<K>(g: Graph<K>, ids: map<K, int>, n: int)
    requires n in g && g[n].initializer.Some?
  {
    var f := g[n].initializer.value;
    && f.instanceType in ids && ids[f.instanceType] == n
    && forall i :: 0 <= i < |f.deps| ==> f.deps[i] in ids && ids[f.deps[i]] in g && n in g[ids[f.deps[i]]].dependents
  }

  /** What di_config::add keeps true of graph_: names go with initializers, initializers are wired
      to their dependencies, and every dependent is a registered node. */
  ghost predicate WellFormed<K>(g: Graph<K>, ids: map<K, int>)
  {
    && (forall n :: n in g ==>
          g[n].debugTypeName == (if g[n].initializer.Some? then Some(g[n].initializer.value.instanceType) else None))
    && (forall n :: n in g && g[n].initializer.Some? ==> InitializerWired(g, ids, n))
    && (forall n, v :: n in g && v in g[n].dependents ==> v in g && g[v].initializer.Some?)
  }

  /** Handing out more ids (to other types) keeps the graph well formed. */
  lemma WellFormedUnderMoreIds<K>(g: Graph<K>, ids: map<K, int>, ids': map<K, int>)
    requires WellFormed(g, ids)
    requires forall k :: k in ids ==> k in ids' && ids'[k] == ids[k]
    ensures WellFormed(g, ids')
  {
    forall n | n in g && g[n].initializer.Some? ensures InitializerWired(g, ids', n) {
      assert InitializerWired(g, ids, n);
    }
  }

  /** di_config::add keeps the graph well formed. */
  lemma {:induction false} RegisterPreservesWellFormed<K>(g: Graph<K>, ids: map<K, int>, f: Factory<K>)
    requires WellFormed(g, ids)
    requires f.instanceType in ids && forall i :: 0 <= i < |f.deps| ==> f.deps[i] in ids
    ensures WellFormed(Register(g, ids, f), ids)
  {
    var r, id := Register(g, ids, f), ids[f.instanceType];
    RegisterEffect(g, ids, f);
    forall n | n in r && r[n].initializer.Some? ensures InitializerWired(r, ids, n) {
      if n != id {
        assert n in g && g[n].initializer.Some?;
        assert InitializerWired(g, ids, n);
        var h := g[n].initializer.value;
        assert r[n].initializer.value == h;
        forall i | 0 <= i < |h.deps| ensures ids[h.deps[i]] in r && n in r[ids[h.deps[i]]].dependents {
          var m := ids[h.deps[i]];
          assert m in g && n in g[m].dependents;
          assert g[m].dependents <= r[m].dependents;
        }
      }
    }
    forall n | n in r
      ensures r[n].debugTypeName == (if r[n].initializer.Some? then Some(r[n].initializer.value.instanceType) else None)
    {
      if n != id && n in g {
        assert g[n].debugTypeName == (if g[n].initializer.Some? then Some(g[n].initializer.value.instanceType) else None);
      }
    }
    forall n, v | n in r && v in r[n].dependents ensures v in r && r[v].initializer.Some? {
      if v != id {
        assert n in g && v in g[n].dependents;
      }
    }
  }

  predicate NoDup(s: seq<int>)
  {
    forall i, j :: 0 <= i < j < |s| ==> s[i] != s[j]
  }

  /** p is a walk along dependency -> dependent edges. */
  ghost predicate Path<K>(g: Graph<K>, p: seq<int>)
  {
    forall i :: 0 <= i < |p| - 1 ==> p[i] in g && p[i + 1] in g[p[i]].dependents
  }

  /** p is a closed walk of at least one edge: a dependency cycle through p[0]. */
  ghost predicate IsCycle<K>(g: Graph<K>, p: seq<int>)
  {
    |p| >= 2 && p[0] == p[|p| - 1] && Path(g, p)
  }

  /** Finish order of the depth-first sort: each node comes after all of its dependents. */
  ghost predicate DependentsFirst<K>(g: Graph<K>, s: seq<int>)
  {
    forall i, j :: 0 <= i < |s| && 0 <= j < |s| && s[i] in g && s[j] in g[s[i]].dependents ==> j < i
  }

  /** Topological order: each node comes before all of its dependents, so every dependency
      comes before the services that need it. */
  ghost predicate DependenciesFirst<K>(g: Graph<K>, s: seq<int>)
  {
    forall i, j :: 0 <= i < |s| && 0 <= j < |s| && s[i] in g && s[j] in g[s[i]].dependents ==> i < j
  }

  /** The order in which a stack filled with s is popped. */
  function Reverse(s: seq<int>): (r: seq<int>)
    ensures |r| == |s| && forall k :: 0 <= k < |s| ==> r[k] == s[|s| - 1 - k]
    decreases |s|
  {
    if s == [] then [] else [s[|s| - 1]] + Reverse(s[..|s| - 1])
  }

  /** Popping a stack filled in finish order yields a topological order. */
  lemma PopOrderIsTopological<K>(g: Graph<K>, s: seq<int>)
    requires DependentsFirst(g, s) && NoDup(s)
    ensures DependenciesFirst(g, Reverse(s)) && NoDup(Reverse(s))
    ensures forall n :: n in Reverse(s) <==> n in s
  {
    var r := Reverse(s);
    forall n | n in s ensures n in r {
      var k :| 0 <= k < |s| && s[k] == n;
      assert r[|s| - 1 - k] == n;
    }
  }

  /** Along a walk, positions in a topological order strictly increase. */
  lemma {:induction false} WalkMovesForward<K>(g: Graph<K>, order: seq<int>, p: seq<int>, a: nat, b: nat)
    requires DependenciesFirst(g, order) && (forall i :: 0 <= i < |p| ==> p[i] in order)
    requires Path(g, p) && |p| >= 2
    requires a < |order| && b < |order| && order[a] == p[0] && order[b] == p[|p| - 1]
    ensures a < b
    decreases |p|
  {
    if |p| == 2 {
    } else {
      assert p[1] in g[p[0]].dependents && p[1] in g by { assert 1 < |p| - 1; }
      var c :| 0 <= c < |order| && order[c] == p[1];
      var rest := p[1..];
      assert Path(g, rest) by {
        forall i | 0 <= i < |rest| - 1 ensures rest[i] in g && rest[i + 1] in g[rest[i]].dependents {
          assert rest[i] == p[i + 1] && rest[i + 1] == p[i + 2];
        }
      }
      WalkMovesForward(g, order, rest, c, b);
    }
  }

  /** Every node on a dependency cycle is the dependent of its predecessor and therefore carries
      an initializer; so a topological order of the nodes with initializers rules out every
      cycle. */
  lemma SortedRegisteredNodesRuleOutCycles<K>(g: Graph<K>, ids: map<K, int>, order: seq<int>, p: seq<int>)
    requires WellFormed(g, ids) && DependenciesFirst(g, order)
    requires forall n :: n in g && g[n].initializer.Some? ==> n in order
    ensures !IsCycle(g, p)
  {
    if IsCycle(g, p) {
      forall i | 0 <= i < |p| ensures p[i] in order {
        var j := if i == 0 then |p| - 1 else i;
        var n, v := p[j - 1], p[j];
        assert n in g && v in g[n].dependents;
        assert v in g && g[v].initializer.Some?;
        assert p[i] == p[j];
      }
      var a :| 0 <= a < |order| && order[a] == p[0];
      WalkMovesForward(g, order, p, a, a);
    }
  }
}
