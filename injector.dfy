/** The injector (Cpp/DI_variadic/injector.hpp): a type map from service types to instance
    containers, and the resolution of a factory's parameters against it. get_instance and inject
    are declared there without bodies; their behaviour here follows their doc comments. */
module Injector {
  import opened Wrappers
  import opened Errors
  import opened TypeMap
  import opened AbstractObject

  /** An object built by an instance factory: the service type it was built as and the
      dependency instances the factory received, in parameter order. */
  datatype Service<K> = Service(ty: K, args: seq<Service<K>>)

  /** An instance_factory_function<InstanceType, Deleter, Deps...>, seen through its types:
      it builds an instanceType from one instance of each of deps. */
  datatype Factory<K> = Factory(instanceType: K, deps: seq<K>)

  /** get_instance<Deps, InstanceType>() for each parameter in turn: the resolved instances, or
      an UnsatisfiedDependency naming the first missing type and the dependent. */
  function Resolve<K>(deps: seq<K>, dependent: K, c: map<K, Service<K>>): (r: Result<seq<Service<K>>, Error<K>>)
    ensures r.Success? <==> forall i :: 0 <= i < |deps| ==> deps[i] in c
    ensures r.Success? ==> |r.value| == |deps| && forall i :: 0 <= i < |deps| ==> r.value[i] == c[deps[i]]
    ensures r.Failure? ==>
      exists m :: 0 <= m < |deps| && deps[m] !in c && (forall i :: 0 <= i < m ==> deps[i] in c)
                  && r.error == UnsatisfiedDependency(deps[m], Some(dependent))
    decreases |deps|
  {
    if deps == [] then Success([])
    else if deps[0] !in c then Failure(UnsatisfiedDependency(deps[0], Some(dependent)))
    else
      match Resolve(deps[1..], dependent, c)
      case Failure(e) => Failure(e)
      case Success(rest) => Success([c[deps[0]]] + rest)
  }

  /** inject(factory): the factory called with the resolved instances. */
  function Construct<K>(f: Factory<K>, c: map<K, Service<K>>): Result<Service<K>, Error<K>>
  {
    match Resolve(f.deps, f.instanceType, c)
    case Failure(e) => Failure(e)
    case Success(args) => Success(Service(f.instanceType, args))
  }

  /** Each container of the instance map owns its pointer, which points at the instance of its
      key type. */
  ghost predicate Holds<K>(contents: map<K, InstanceContainer<Service<K>>>, instances: map<K, Service<K>>)
    reads contents.Values
  {
    && instances.Keys == contents.Keys
    && forall k :: k in contents ==> contents[k].raw == Some(instances[k]) && contents[k].OwnsRaw()
  }

  /** Putting a container that owns a pointer to obj under t records obj as t's instance. */
  lemma HoldsAfterPut<K>(contents: map<K, InstanceContainer<Service<K>>>, instances: map<K, Service<K>>,
                         t: K, c: InstanceContainer<Service<K>>, obj: Service<K>)
    requires Holds(contents, instances) && c.raw == Some(obj) && c.OwnsRaw()
    ensures Holds(contents[t := c], instances[t := obj])
  {
  }

  /** The injector owns one type map of instance containers. Instances is that map as seen
      through each container's raw pointer. */
  class Injector<K(==, !new)> {
    var instanceMap: TypeMap<K, InstanceContainer<Service<K>>>
    ghost var Instances: map<K, Service<K>>

    ghost predicate Valid()
      reads this, instanceMap, instanceMap.counter, instanceMap.Contents.Values
    {
      instanceMap.Valid() && Holds(instanceMap.Contents, Instances)
    }

    /** The private default constructor: an empty injector whose type map uses the static
        counter of type_map<unique_ptr<abstract_instance_container>>. */
    constructor (instanceIds: TypeIdCounter<K>)
      requires instanceIds.Valid()
      ensures Valid() && fresh(instanceMap) && instanceMap.counter == instanceIds && Instances == map[]
    {
      instanceMap := new TypeMap(instanceIds);
      Instances := map[];
    }

    /** injector(injector&& other): the whole instance map moves to the new injector; other is
        left with an empty map over the same static counter. */
    constructor MoveFrom(other: Injector<K>)
      requires other.Valid()
      modifies other
      ensures Valid() && instanceMap == old(other.instanceMap) && Instances == old(other.Instances)
      ensures other.Valid() && fresh(other.instanceMap) && other.Instances == map[]
    {
      instanceMap := other.instanceMap;
      Instances := other.Instances;
      new;
      other.instanceMap := new TypeMap(other.instanceMap.counter);
      other.Instances := map[];
    }

    /** operator=(injector&& other): as the move constructor, for an existing injector. */
    method MoveAssign(other: Injector<K>)
      requires other.Valid()
      modifies this, other
      ensures other.Valid() && fresh(other.instanceMap) && other.Instances == map[]
      ensures this != other ==> Valid() && instanceMap == old(other.instanceMap) && Instances == old(other.Instances)
    {
      instanceMap := other.instanceMap;
      Instances := other.Instances;
      other.instanceMap := new TypeMap(other.instanceMap.counter);
      other.Instances := map[];
    }

    /** get_instance<T, Dependent>(): the registered instance of t, or an exception naming t and
        the dependent that asked. Only the static id counter may change. */
    method GetInstance(t: K, dependent: Option<K>) returns (r: Result<Service<K>, Error<K>>)
      requires Valid()
      modifies instanceMap.counter
      ensures Valid() && Instances == old(Instances) && instanceMap.entries == old(instanceMap.entries)
      ensures r == if t in Instances then Success(Instances[t]) else Failure(UnsatisfiedDependency(t, dependent))
    {
      var it := instanceMap.Find(t);
      if it.None? {
        r := Failure(UnsatisfiedDependency(t, dependent));
      } else {
        var p := it.value.Get();
        r := Success(p.value);
      }
    }

    /** inject(factory): binds each factory parameter, in order, to the registered instance of
        its type and returns what the factory builds. */
    method Inject(f: Factory<K>) returns (r: Result<Service<K>, Error<K>>)
      requires Valid()
      modifies instanceMap.counter
      ensures Valid() && Instances == old(Instances) && instanceMap.entries == old(instanceMap.entries)
      ensures r == Construct(f, Instances)
    {
      var args: seq<Service<K>> := [];
      var i := 0;
      while i < |f.deps|
        invariant 0 <= i <= |f.deps|
        invariant Valid() && Instances == old(Instances) && instanceMap.entries == old(instanceMap.entries)
        invariant |args| == i && forall j :: 0 <= j < i ==> f.deps[j] in Instances && args[j] == Instances[f.deps[j]]
      {
        var a := GetInstance(f.deps[i], Some(f.instanceType));
        if a.Failure? {
          ResolveStopsAtFirstMissing(f.deps, i, f.instanceType, Instances);
          return Failure(a.error);
        }
        args := args + [a.value];
        i := i + 1;
      }
      ghost var res := Resolve(f.deps, f.instanceType, Instances);
      assert res.Success? && res.value == args;
      r := Success(Service(f.instanceType, args));
    }
  }

  /** When every parameter before position m resolves and parameter m does not, resolution
      fails naming parameter m. */
  lemma ResolveStopsAtFirstMissing<K>(deps: seq<K>, m: nat, dependent: K, c: map<K, Service<K>>)
    requires m < |deps| && deps[m] !in c
    requires forall i :: 0 <= i < m ==> deps[i] in c
    ensures Resolve(deps, dependent, c) == Failure(UnsatisfiedDependency(deps[m], Some(dependent)))
  {
  }
}
