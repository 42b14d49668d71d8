/** The second half of di_config::build_injector (Cpp/DI_variadic/di_config.hpp): running the
    stored initializers against the injector, and what that yields when they run in a topological
    order of the dependency graph. */
module Initialization {
  import opened Wrappers
  import opened Errors
  import opened Injector
  import opened DependencyGraph

  /** One initializer, the lambda di_config::add stores: inject the factory, wrap the result and
      put it under the factory's instance type (which throws if that type already has one). */
  function Run<K>(f: Factory<K>, c: map<K, Service<K>>): Result<map<K, Service<K>>, Error<K>>
  {
    match Construct(f, c)
    case Failure(e) => Failure(e)
    case Success(obj) =>
      if f.instanceType in c then Failure(AlreadyPresent(f.instanceType))
      else Success(c[f.instanceType := obj])
  }

  /** Initializers run one after another; the first exception abandons the rest. */
  function RunAll<K>(fs: seq<Factory<K>>, c: map<K, Service<K>>): Result<map<K, Service<K>>, Error<K>>
    decreases |fs|
  {
    if fs == [] then Success(c)
    else
      match Run(fs[0], c)
      case Failure(e) => Failure(e)
      case Success(c') => RunAll(fs[1..], c')
  }

  /** Every listed node is in the graph and carries an initializer. */
  ghost predicate HasInitializers<K>(g: Graph<K>, order: seq<int>)
  {
    forall i :: 0 <= i < |order| ==> order[i] in g && g[order[i]].initializer.Some?
  }

  /** The initializers of the listed nodes, in the listed order. */
  ghost function InitializersOf<K>(g: Graph<K>, order: seq<int>): (fs: seq<Factory<K>>)
    requires HasInitializers(g, order)
    ensures |fs| == |order| && forall i :: 0 <= i < |order| ==> fs[i] == g[order[i]].initializer.value
  {
    seq(|order|, i requires 0 <= i < |order| => g[order[i]].initializer.value)
  }

  /** The service types of the listed nodes that carry an initializer. */
  ghost function TypesOf<K>(g: Graph<K>, s: seq<int>): set<K>
  {
    set i | 0 <= i < |s| && s[i] in g && g[s[i]].initializer.Some? :: g[s[i]].initializer.value.instanceType
  }

  /** The service types that have been registered with di_config::add. */
  ghost function RegisteredTypes<K>(g: Graph<K>): set<K>
  {
    set n | n in g && g[n].initializer.Some? :: g[n].initializer.value.instanceType
  }

  /** Every dependency that some registered factory declares has been registered itself. */
  ghost predicate AllDependenciesRegistered<K>(g: Graph<K>)
  {
    forall n, i :: n in g && g[n].initializer.Some? && 0 <= i < |g[n].initializer.value.deps| ==>
      g[n].initializer.value.deps[i] in RegisteredTypes(g)
  }

  ghost predicate Injective<K>(ids: map<K, int>)
  {
    forall k1, k2 :: k1 in ids && k2 in ids && ids[k1] == ids[k2] ==> k1 == k2
  }

  /** No instance observed an unconstructed dependency: each instance was built as its type by
      that type's current factory, from the very instances the injector holds for its
      dependencies. */
  ghost predicate Assembled<K>(c: map<K, Service<K>>, g: Graph<K>, ids: map<K, int>)
  {
    forall t :: t in c ==>
      && t in ids && ids[t] in g && g[ids[t]].initializer.Some?
      && var f := g[ids[t]].initializer.value;
         && c[t].ty == t && |c[t].args| == |f.deps|
         && forall k :: 0 <= k < |f.deps| ==> f.deps[k] in c && c[t].args[k] == c[f.deps[k]]
  }

  /** The types built by a prefix grow by one node's type at a time. */
  lemma TypesOfExtend<K>(g: Graph<K>, s: seq<int>, j: nat)
    requires HasInitializers(g, s) && j < |s|
    ensures TypesOf(g, s[..j + 1]) == TypesOf(g, s[..j]) + {g[s[j]].initializer.value.instanceType}
  {
    var a, b := s[..j + 1], s[..j];
    forall t | t in TypesOf(g, a) ensures t in TypesOf(g, b) + {g[s[j]].initializer.value.instanceType} {
      var i :| 0 <= i < |a| && a[i] in g && g[a[i]].initializer.Some? && g[a[i]].initializer.value.instanceType == t;
      if i < j {
        assert b[i] == a[i];
      }
    }
    forall t | t in TypesOf(g, b) ensures t in TypesOf(g, a) {
      var i :| 0 <= i < |b| && b[i] in g && g[b[i]].initializer.Some? && g[b[i]].initializer.value.instanceType == t;
      assert a[i] == b[i];
    }
    assert a[j] == s[j];
  }

  /** A topological order that lists every registered node once, over a well-formed graph. */
  ghost predicate OrderedSetting<K>(g: Graph<K>, ids: map<K, int>, order: seq<int>)
  {
    && WellFormed(g, ids) && Injective(ids)
    && NoDup(order) && DependenciesFirst(g, order) && HasInitializers(g, order)
    && (forall n :: n in g && g[n].initializer.Some? ==> n in order)
  }

  /** The preconditions RunSuffix carries from step to step. */
  ghost predicate SortedSetting<K>(g: Graph<K>, ids: map<K, int>, order: seq<int>)
  {
    OrderedSetting(g, ids, order) && AllDependenciesRegistered(g)
  }

  lemma DeclaredDependencyRegistered<K>(g: Graph<K>, n: int, k: nat)
    requires AllDependenciesRegistered(g) && n in g && g[n].initializer.Some?
    requires k < |g[n].initializer.value.deps|
    ensures g[n].initializer.value.deps[k] in RegisteredTypes(g)
  {
  }

  /** The type of the next node in a duplicate-free order has not been built by the prefix. */
  lemma NextNotBuilt<K>(g: Graph<K>, ids: map<K, int>, order: seq<int>, j: nat)
    requires OrderedSetting(g, ids, order) && j < |order|
    ensures g[order[j]].initializer.value.instanceType !in TypesOf(g, order[..j])
  {
    var u := order[j];
    var t := g[u].initializer.value.instanceType;
    assert InitializerWired(g, ids, u);
    var pre := order[..j];
    forall i | 0 <= i < |pre| && pre[i] in g && g[pre[i]].initializer.Some?
      ensures g[pre[i]].initializer.value.instanceType != t
    {
      assert pre[i] == order[i];
      assert InitializerWired(g, ids, pre[i]);
    }
  }

  /** Every registered dependency of the next node in a topological order was built by the
      prefix. */
  lemma DependenciesBuilt<K>(g: Graph<K>, ids: map<K, int>, order: seq<int>, j: nat, k: nat)
    requires OrderedSetting(g, ids, order) && j < |order|
    requires k < |g[order[j]].initializer.value.deps|
    requires g[order[j]].initializer.value.deps[k] in RegisteredTypes(g)
    ensures g[order[j]].initializer.value.deps[k] in TypesOf(g, order[..j])
  {
    var u := order[j];
    var d := g[u].initializer.value.deps[k];
    assert InitializerWired(g, ids, u);
    var n' :| n' in g && g[n'].initializer.Some? && g[n'].initializer.value.instanceType == d;
    assert InitializerWired(g, ids, n');
    assert n' in order;
    var a :| 0 <= a < |order| && order[a] == n';
    assert order[j] in g[order[a]].dependents;
    assert order[..j][a] == order[a];
  }

  /** The injector after f's initializer has run on c with all of f's dependencies present. */
  ghost function Built<K>(f: Factory<K>, c: map<K, Service<K>>): map<K, Service<K>>
    requires forall k :: 0 <= k < |f.deps| ==> f.deps[k] in c
  {
    c[f.instanceType := Service(f.instanceType, Resolve(f.deps, f.instanceType, c).value)]
  }

  /** In a topological order, the initializer at position j finds all of its dependencies built
      and its own type not yet built, so it succeeds and keeps the injector assembled. */
  lemma RunStep<K>(g: Graph<K>, ids: map<K, int>, order: seq<int>, j: nat, c: map<K, Service<K>>)
    requires SortedSetting(g, ids, order) && j < |order|
    requires c.Keys == TypesOf(g, order[..j]) && Assembled(c, g, ids)
    ensures var f := g[order[j]].initializer.value;
      && (forall k :: 0 <= k < |f.deps| ==> f.deps[k] in c)
      && RunAll(InitializersOf(g, order[j..]), c) == RunAll(InitializersOf(g, order[j + 1..]), Built(f, c))
      && Built(f, c).Keys == TypesOf(g, order[..j + 1])
      && Assembled(Built(f, c), g, ids)
  {
    var f := g[order[j]].initializer.value;
    NextNotBuilt(g, ids, order, j);
    forall k | 0 <= k < |f.deps| ensures f.deps[k] in c {
      DeclaredDependencyRegistered(g, order[j], k);
      DependenciesBuilt(g, ids, order, j, k);
    }
    RunHead(g, order, j, c);
    TypesOfExtend(g, order, j);
    assert InitializerWired(g, ids, order[j]);
    AssembledExtend(g, ids, c, f, order[j]);
  }

  /** The initializer at position j, with its dependencies built and its type not, adds its
      instance and hands over to the rest. */
  lemma RunHead<K>(g: Graph<K>, order: seq<int>, j: nat, c: map<K, Service<K>>)
    requires HasInitializers(g, order) && j < |order|
    requires g[order[j]].initializer.value.instanceType !in c
    requires forall k :: 0 <= k < |g[order[j]].initializer.value.deps| ==> g[order[j]].initializer.value.deps[k] in c
    ensures RunAll(InitializersOf(g, order[j..]), c)
         == RunAll(InitializersOf(g, order[j + 1..]), Built(g[order[j]].initializer.value, c))
  {
    var f := g[order[j]].initializer.value;
    assert Run(f, c) == Success(Built(f, c));
    var fs := InitializersOf(g, order[j..]);
    assert fs[1..] == InitializersOf(g, order[j + 1..]);
    assert fs[0] == f;
  }

  /** Running the initializers of order[j..] after those of order[..j] succeeds and assembles
      every instance, provided the order is topological and every dependency is registered. */
  lemma {:induction false} RunSuffix<K>(g: Graph<K>, ids: map<K, int>, order: seq<int>, j: nat, c: map<K, Service<K>>)
    requires SortedSetting(g, ids, order) && j <= |order|
    requires c.Keys == TypesOf(g, order[..j]) && Assembled(c, g, ids)
    ensures RunAll(InitializersOf(g, order[j..]), c).Success?
    ensures RunAll(InitializersOf(g, order[j..]), c).value.Keys == TypesOf(g, order)
    ensures Assembled(RunAll(InitializersOf(g, order[j..]), c).value, g, ids)
    decreases |order| - j
  {
    if j == |order| {
      assert order[..j] == order;
      assert InitializersOf(g, order[j..]) == [];
    } else {
      RunStep(g, ids, order, j, c);
      RunSuffix(g, ids, order, j + 1, Built(g[order[j]].initializer.value, c));
    }
  }

  /** Adding the instance that a node's initializer assembles from already assembled
      dependencies keeps the injector assembled. */
  lemma AssembledExtend<K>(g: Graph<K>, ids: map<K, int>, c: map<K, Service<K>>, f: Factory<K>, u: int)
    requires Assembled(c, g, ids) && u in g && g[u].initializer == Some(f) && InitializerWired(g, ids, u)
    requires f.instanceType !in c && forall k :: 0 <= k < |f.deps| ==> f.deps[k] in c
    ensures Assembled(Built(f, c), g, ids)
  {
  }

  /** Run in a topological order that lists every registered node once, the initializers all
      succeed when every declared dependency is registered: the injector then holds exactly the
      registered types, each assembled from the instances of its dependencies. */
  lemma SortedRunSucceeds<K>(g: Graph<K>, ids: map<K, int>, order: seq<int>)
    requires WellFormed(g, ids) && Injective(ids)
    requires NoDup(order) && DependenciesFirst(g, order)
    requires forall n :: n in order <==> n in g && g[n].initializer.Some?
    requires AllDependenciesRegistered(g)
    ensures HasInitializers(g, order)
    ensures RunAll(InitializersOf(g, order), map[]).Success?
    ensures RunAll(InitializersOf(g, order), map[]).value.Keys == RegisteredTypes(g)
    ensures Assembled(RunAll(InitializersOf(g, order), map[]).value, g, ids)
  {
    ListsRegisteredNodes(g, order);
    assert TypesOf(g, order[..0]) == {};
    RunSuffix(g, ids, order, 0, map[]);
    assert order[0..] == order;
  }

  /** A sequence that lists exactly the nodes with initializers has their initializers and
      their types. */
  lemma ListsRegisteredNodes<K>(g: Graph<K>, order: seq<int>)
    requires forall n :: n in order <==> n in g && g[n].initializer.Some?
    ensures HasInitializers(g, order) && TypesOf(g, order) == RegisteredTypes(g)
  {
    forall i | 0 <= i < |order| ensures order[i] in g && g[order[i]].initializer.Some? {
      var n := order[i];
      assert n in order;
      assert n in g && g[n].initializer.Some?;
    }
    forall t | t in RegisteredTypes(g) ensures t in TypesOf(g, order) {
      var n :| n in g && g[n].initializer.Some? && g[n].initializer.value.instanceType == t;
      var i :| 0 <= i < |order| && order[i] == n;
    }
    forall t | t in TypesOf(g, order) ensures t in RegisteredTypes(g) {
      var i :| 0 <= i < |order| && order[i] in g && g[order[i]].initializer.Some? && g[order[i]].initializer.value.instanceType == t;
      InitializerTypeRegistered(g, order[i]);
    }
  }

  /** If the initializer at position j needs a type d that is not built yet and that no earlier
      initializer builds, the run throws before it completes. */
  lemma {:induction false} RunAllStopsAtNeverBuilt<K>(fs: seq<Factory<K>>, c: map<K, Service<K>>, j: nat, d: K)
    requires j < |fs| && d in fs[j].deps && d !in c
    requires forall i :: 0 <= i < j ==> fs[i].instanceType != d
    ensures RunAll(fs, c).Failure?
    decreases j
  {
    if j == 0 {
      var m :| 0 <= m < |fs[0].deps| && fs[0].deps[m] == d;
      assert Resolve(fs[0].deps, fs[0].instanceType, c).Failure?;
    } else {
      match Run(fs[0], c)
      case Failure(e) =>
      case Success(c') =>
        assert d !in c';
        assert fs[1..][j - 1] == fs[j];
        RunAllStopsAtNeverBuilt(fs[1..], c', j - 1, d);
    }
  }

  lemma InitializerTypeRegistered<K>(g: Graph<K>, n: int)
    requires n in g && g[n].initializer.Some?
    ensures g[n].initializer.value.instanceType in RegisteredTypes(g)
  {
  }

  /** A registered factory that declares a dependency nobody registered makes the initializers
      fail (as an unsatisfied dependency or an earlier exception), whatever order they run in. */
  lemma UnregisteredDependencyFailsRun<K>(g: Graph<K>, order: seq<int>, n: int, k: nat)
    requires HasInitializers(g, order) && n in order
    requires k < |g[n].initializer.value.deps| && g[n].initializer.value.deps[k] !in RegisteredTypes(g)
    ensures RunAll(InitializersOf(g, order), map[]).Failure?
  {
    var fs := InitializersOf(g, order);
    var d := g[n].initializer.value.deps[k];
    var j :| 0 <= j < |order| && order[j] == n;
    forall i | 0 <= i < j ensures fs[i].instanceType != d {
      assert order[i] in g && g[order[i]].initializer.Some? && fs[i] == g[order[i]].initializer.value;
      InitializerTypeRegistered(g, order[i]);
    }
    RunAllStopsAtNeverBuilt(fs, map[], j, d);
  }

  /** The injection error get_instance raises for a dependency that nobody registered: it names
      that type and a registered service type whose factory declares it. */
  ghost predicate UnregisteredDependencyError<K>(g: Graph<K>, e: Error<K>)
  {
    && e.UnsatisfiedDependency? && e.missing !in RegisteredTypes(g) && e.dependent.Some?
    && exists n :: n in g && g[n].initializer.Some?
         && g[n].initializer.value.instanceType == e.dependent.value
         && e.missing in g[n].initializer.value.deps
  }

  /** In a topological order the initializers of order[j..], run after those of order[..j], can
      only throw the injection error of an unregistered dependency: every registered dependency
      has been built and no type is put twice. */
  lemma {:induction false} RunSuffixFailure<K>(g: Graph<K>, ids: map<K, int>, order: seq<int>, j: nat, c: map<K, Service<K>>)
    requires OrderedSetting(g, ids, order) && j <= |order|
    requires c.Keys == TypesOf(g, order[..j])
    ensures RunAll(InitializersOf(g, order[j..]), c).Failure? ==>
      UnregisteredDependencyError(g, RunAll(InitializersOf(g, order[j..]), c).error)
    decreases |order| - j
  {
    if j < |order| {
      var u := order[j];
      var f := g[u].initializer.value;
      var fs := InitializersOf(g, order[j..]);
      assert fs[0] == f && fs[1..] == InitializersOf(g, order[j + 1..]);
      var res := Resolve(f.deps, f.instanceType, c);
      if res.Failure? {
        var m :| 0 <= m < |f.deps| && f.deps[m] !in c && res.error == UnsatisfiedDependency(f.deps[m], Some(f.instanceType));
        if f.deps[m] in RegisteredTypes(g) {
          DependenciesBuilt(g, ids, order, j, m);
          assert false;
        }
        assert Run(f, c) == Failure(res.error);
        assert RunAll(fs, c) == Failure(res.error);
      } else {
        NextNotBuilt(g, ids, order, j);
        TypesOfExtend(g, order, j);
        var c' := c[f.instanceType := Service(f.instanceType, res.value)];
        assert Run(f, c) == Success(c');
        RunSuffixFailure(g, ids, order, j + 1, c');
      }
    }
  }

  /** In a topological order of the registered nodes, the initializers succeed exactly when every
      declared dependency is registered; when they fail, it is with the injection error that
      names an unregistered dependency and the service that declares it. */
  lemma SortedRunSucceedsIff<K>(g: Graph<K>, ids: map<K, int>, order: seq<int>)
    requires WellFormed(g, ids) && Injective(ids)
    requires NoDup(order) && DependenciesFirst(g, order)
    requires forall n :: n in order <==> n in g && g[n].initializer.Some?
    ensures HasInitializers(g, order)
    ensures RunAll(InitializersOf(g, order), map[]).Success? <==> AllDependenciesRegistered(g)
    ensures RunAll(InitializersOf(g, order), map[]).Failure? ==>
      UnregisteredDependencyError(g, RunAll(InitializersOf(g, order), map[]).error)
  {
    ListsRegisteredNodes(g, order);
    assert TypesOf(g, order[..0]) == {};
    assert order[0..] == order;
    RunSuffixFailure(g, ids, order, 0, map[]);
    if AllDependenciesRegistered(g) {
      SortedRunSucceeds(g, ids, order);
    } else {
      var n, k :| n in g && g[n].initializer.Some? && 0 <= k < |g[n].initializer.value.deps|
        && g[n].initializer.value.deps[k] !in RegisteredTypes(g);
      UnregisteredDependencyFailsRun(g, order, n, k);
    }
  }
}
