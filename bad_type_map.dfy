/** The prototype of Cpp/DI_variadic/bad_type_map.cpp: a Simulation that stores objects by name,
    and a global counter that hands every type its own id through fetch_add. C++ types are
    modelled by the key type K, object names by strings, and owning pointers by Option values
    (None is a null unique_ptr). */
module BadTypeMap {
  import opened Wrappers

  /** The state behind generate_type_id: the global TypeIdCounter and, for every type that has
      asked, the function-local static id it received. */
  datatype IdState<K> = IdState(ids: map<K, int>, counter: int)

  /** Ids lie below the counter, and no two types share one. */
  ghost predicate WellFormed<K>(st: IdState<K>) {
    && 0 <= st.counter
    && (forall k :: k in st.ids ==> 0 <= st.ids[k] < st.counter)
    && (forall k1, k2 :: k1 in st.ids && k2 in st.ids && st.ids[k1] == st.ids[k2] ==> k1 == k2)
  }

  /** std::atomic_int TypeIdCounter(0), before any generate_type_id call. */
  function Initial<K>(): (st: IdState<K>)
    ensures WellFormed(st) && st.ids == map[] && st.counter == 0
  {
    IdState(map[], 0)
  }

  /** generate_type_id<K>(): the first call for k initialises its static from fetch_add(1),
      the counter's value before the increment; later calls return the static. */
  function Generate<K>(st: IdState<K>, k: K): (int, IdState<K>)
  {
    if k in st.ids then (st.ids[k], st)
    else (st.counter, IdState(st.ids[k := st.counter], st.counter + 1))
  }

  /** k has its id in the new state, ids already handed out are kept, and a well-formed state
      stays well formed, the new id lying below the counter. */
  lemma GenerateEffect<K>(st: IdState<K>, k: K)
    ensures var r := Generate(st, k);
      && k in r.1.ids && r.1.ids[k] == r.0
      && (forall k' :: k' in st.ids ==> k' in r.1.ids && r.1.ids[k'] == st.ids[k'])
      && r.1.ids.Keys == st.ids.Keys + {k}
      && (WellFormed(st) ==> WellFormed(r.1) && 0 <= r.0 < r.1.counter)
  {
  }

  /** A second call for the same type returns the same id and changes nothing. */
  lemma GenerateStable<K>(st: IdState<K>, k: K)
    ensures var r := Generate(st, k); Generate(r.1, k) == (r.0, r.1)
  {
  }

  /** The ids returned by generate_type_id for ks, called in turn, and the state after. */
  function GenerateAll<K>(st: IdState<K>, ks: seq<K>): (IdState<K>, seq<int>)
    decreases |ks|
  {
    if ks == [] then (st, [])
    else
      var first := Generate(st, ks[0]);
      var rest := GenerateAll(first.1, ks[1..]);
      (rest.0, [first.0] + rest.1)
  }

  /** Calls for any types after k has its id leave that id unchanged. */
  lemma {:induction false} GenerateAllKeepsIds<K>(st: IdState<K>, ks: seq<K>, k: K)
    requires k in st.ids
    ensures k in GenerateAll(st, ks).0.ids && GenerateAll(st, ks).0.ids[k] == st.ids[k]
    decreases |ks|
  {
    if ks != [] {
      GenerateAllKeepsIds(Generate(st, ks[0]).1, ks[1..], k);
    }
  }

  /** Every call returns the id its type holds once the calls are over: a type asking twice
      gets the same id both times. */
  lemma {:induction false} GenerateAllConsistent<K>(st: IdState<K>, ks: seq<K>)
    ensures |GenerateAll(st, ks).1| == |ks|
    ensures forall i :: 0 <= i < |ks| ==>
      ks[i] in GenerateAll(st, ks).0.ids && GenerateAll(st, ks).1[i] == GenerateAll(st, ks).0.ids[ks[i]]
    decreases |ks|
  {
    if ks != [] {
      var first := Generate(st, ks[0]);
      var rest := ks[1..];
      GenerateAllConsistent(first.1, rest);
      GenerateAllKeepsIds(first.1, rest, ks[0]);
      forall i | 0 <= i < |ks|
        ensures ks[i] in GenerateAll(st, ks).0.ids && GenerateAll(st, ks).1[i] == GenerateAll(st, ks).0.ids[ks[i]]
      {
        if i > 0 {
          assert ks[i] == rest[i - 1];
        }
      }
    }
  }

  /** Distinct types asking for the first time receive consecutive ids from the counter on, in
      the order they ask; from Initial() the first type gets 0. */
  lemma {:induction false} FreshTypesGetConsecutiveIds<K>(st: IdState<K>, ks: seq<K>)
    requires WellFormed(st)
    requires forall i, j :: 0 <= i < j < |ks| ==> ks[i] != ks[j]
    requires forall i :: 0 <= i < |ks| ==> ks[i] !in st.ids
    ensures WellFormed(GenerateAll(st, ks).0)
    ensures GenerateAll(st, ks).0.counter == st.counter + |ks|
    ensures |GenerateAll(st, ks).1| == |ks|
    ensures forall i :: 0 <= i < |ks| ==> GenerateAll(st, ks).1[i] == st.counter + i
    decreases |ks|
  {
    if ks != [] {
      GenerateEffect(st, ks[0]);
      var st1 := Generate(st, ks[0]).1;
      var rest := ks[1..];
      forall i | 0 <= i < |rest| ensures rest[i] !in st1.ids {
        assert rest[i] == ks[i + 1];
      }
      FreshTypesGetConsecutiveIds(st1, rest);
    }
  }

  /** The demonstration at the end of main: double, int, double print 0, 1, 0. */
  lemma DoubleIntDouble<K>(doubleType: K, intType: K)
    requires doubleType != intType
    ensures GenerateAll(Initial(), [doubleType, intType, doubleType]).1 == [0, 1, 0]
  {
    GenerateAllConsistent(Initial(), [doubleType, intType, doubleType]);
    FreshTypesGetConsecutiveIds(Initial(), [doubleType, intType]);
    assert [doubleType, intType, doubleType][..2] == [doubleType, intType];
  }

  /** The global TypeIdCounter with the static ids of the generate_type_id instantiations. */
  class TypeIdCounter<K(==)> {
    var counter: int
    var ids: map<K, int>
    /** Which type holds each id handed out: the witness that no two types share one. */
    ghost var owner: map<int, K>

    ghost function State(): IdState<K>
      reads this
    {
      IdState(ids, counter)
    }

    ghost predicate Valid()
      reads this
    {
      && 0 <= counter
      && forall k :: k in ids ==> 0 <= ids[k] < counter && ids[k] in owner && owner[ids[k]] == k
    }

    /** A valid counter's state is well formed. */
    lemma StateWellFormed()
      requires Valid()
      ensures WellFormed(State())
    {
    }

    /** std::atomic_int TypeIdCounter(0) */
    constructor ()
      ensures Valid() && State() == Initial()
    {
      counter := 0;
      ids := map[];
      owner := map[];
    }

    /** generate_type_id<K>(): the static is initialised once, from fetch_add(1). */
    method GenerateTypeId(k: K) returns (id: int)
      requires Valid()
      modifies this
      ensures Valid()
      ensures (id, State()) == Generate(old(State()), k)
    {
      if k in ids {
        id := ids[k];
      } else {
        id := counter;
        counter := counter + 1;
        ids := ids[k := id];
        owner := owner[id := k];
      }
    }
  }

  /** The objects of the prototype: Object1, and Object2 with its int member _a. */
  datatype AbstractObject = Object1 | Object2(a: int)

  /** unordered_map::insert: a name already present keeps its object; a new name gets ptr. */
  function Insert<V>(m: map<string, V>, name: string, ptr: V): map<string, V>
  {
    if name in m then m else m[name := ptr]
  }

  /** After an insert the name is present; its object is the first one inserted under it, and
      every other name keeps its object. */
  lemma InsertEffect<V>(m: map<string, V>, name: string, ptr: V)
    ensures var r := Insert(m, name, ptr);
      && r.Keys == m.Keys + {name}
      && r[name] == (if name in m then m[name] else ptr)
      && (forall n :: n in m ==> r[n] == m[n])
  {
  }

  /** Inserting again under a name changes nothing: the first object inserted wins. */
  lemma InsertKeepsFirst<V>(m: map<string, V>, name: string, first: V, second: V)
    ensures Insert(Insert(m, name, first), name, second) == Insert(m, name, first)
  {
  }

  /** struct Simulation: the objects it owns, by name; a null pointer is a stored None. */
  class Simulation {
    var objects: map<string, Option<AbstractObject>>

    constructor ()
      ensures objects == map[]
    {
      objects := map[];
    }

    /** get(): the name must be present (the assert); the pointer stored under it, possibly
        null, is returned and ownership stays with the map. */
    method Get(name: string) returns (ptr: Option<AbstractObject>)
      requires name in objects
      ensures ptr == objects[name]
    {
      ptr := objects[name];
    }

    /** add_object(): inserts ptr under name, a null ptr included, unless the name is taken. */
    method AddObject(ptr: Option<AbstractObject>, name: string)
      modifies this
      ensures objects == Insert(old(objects), name, ptr)
    {
      if name !in objects {
        objects := objects[name := ptr];
      }
    }
  }

  /** The first part of main: obj1 is moved into the map under "obj 1", so the pointer moved
      again under "obj 2 but should be 1" is null, and get finds no Object2 there. */
  method MovedFromPointer() returns (obj: Option<AbstractObject>, obj2: Option<AbstractObject>)
    ensures obj == None
    ensures obj2 == Some(Object2(2))
  {
    var simulation := new Simulation();
    var obj1: Option<AbstractObject> := Some(Object1);
    var o2: Option<AbstractObject> := Some(Object2(2));
    simulation.AddObject(obj1, "obj 1");
    obj1 := None;
    simulation.AddObject(o2, "obj 2");
    o2 := None;
    simulation.AddObject(obj1, "obj 2 but should be 1");
    obj := simulation.Get("obj 2 but should be 1");
    obj2 := simulation.Get("obj 2");
  }
}
