/** core::type_map<V> (Cpp/DI_variadic/type_map.hpp): a hash table keyed by a per-type integer id,
    with ids handed out lazily by a counter that is static to each instantiation type_map<V>.
    C++ types are modelled by the key type K. */
module TypeMap {
  import opened Wrappers
  import opened Errors

  /** The static state behind type_map<V>::type_id for one V: the counter last_type_id and,
      for every key type that has asked, the function-local static id it received. */
  datatype IdTable<K> = IdTable(ids: map<K, int>, last: int)

  /** Ids are positive, never above the counter, and no two key types share one. */
  ghost predicate WellFormed<K>(t: IdTable<K>) {
    && 0 <= t.last
    && (forall k :: k in t.ids ==> 1 <= t.ids[k] <= t.last)
    && (forall k1, k2 :: k1 in t.ids && k2 in t.ids && t.ids[k1] == t.ids[k2] ==> k1 == k2)
  }

  /** The counter as the program starts: last_type_id(0) and no id handed out. */
  function EmptyTable<K>(): (t: IdTable<K>)
    ensures WellFormed(t) && t.ids == map[]
  {
    IdTable(map[], 0)
  }

  /** type_id<K>(): the first call for k pre-increments the counter and keeps the new value
      in a static; every later call returns that static. */
  function AssignId<K>(t: IdTable<K>, k: K): (int, IdTable<K>)
  {
    if k in t.ids then (t.ids[k], t)
    else (t.last + 1, IdTable(t.ids[k := t.last + 1], t.last + 1))
  }

  /** k gets an id and keeps it, every id already handed out is kept, and a well-formed table
      stays well formed with the new id in range. */
  lemma AssignIdEffect<K>(t: IdTable<K>, k: K)
    ensures var r := AssignId(t, k);
      && k in r.1.ids && r.1.ids[k] == r.0
      && (forall k' :: k' in t.ids ==> k' in r.1.ids && r.1.ids[k'] == t.ids[k'])
      && r.1.ids.Keys == t.ids.Keys + {k}
      && (WellFormed(t) ==> WellFormed(r.1) && 1 <= r.0 <= r.1.last)
  {
  }

  /** The table after type_id has been called for each of ks in turn. */
  function AssignAll<K>(t: IdTable<K>, ks: seq<K>): IdTable<K>
    decreases |ks|
  {
    if ks == [] then t else AssignAll(AssignId(t, ks[0]).1, ks[1..])
  }

  /** Once a key type has an id, further calls of type_id for any keys leave it unchanged. */
  lemma {:induction false} AssignAllKeepsIds<K>(t: IdTable<K>, ks: seq<K>, k: K)
    requires k in t.ids
    ensures k in AssignAll(t, ks).ids && AssignAll(t, ks).ids[k] == t.ids[k]
    decreases |ks|
  {
    if ks != [] {
      AssignAllKeepsIds(AssignId(t, ks[0]).1, ks[1..], k);
    }
  }

  /** Asking for one more key after ks is AssignId on the table ks produced. */
  lemma {:induction false} AssignAllSnoc<K>(t: IdTable<K>, ks: seq<K>, k: K)
    ensures AssignAll(t, ks + [k]) == AssignId(AssignAll(t, ks), k).1
    decreases |ks|
  {
    if ks == [] {
      assert ([] + [k])[1..] == [];
    } else {
      assert (ks + [k])[1..] == ks[1..] + [k];
      AssignAllSnoc(AssignId(t, ks[0]).1, ks[1..], k);
    }
  }

  /** Distinct key types asking for the first time receive consecutive ids from last + 1 on,
      in the order they ask; the table stays well formed. From EmptyTable() the first id is 1. */
  lemma {:induction false} FreshKeysGetConsecutiveIds<K>(t: IdTable<K>, ks: seq<K>)
    requires WellFormed(t)
    requires forall i, j :: 0 <= i < j < |ks| ==> ks[i] != ks[j]
    requires forall i :: 0 <= i < |ks| ==> ks[i] !in t.ids
    ensures WellFormed(AssignAll(t, ks))
    ensures AssignAll(t, ks).last == t.last + |ks|
    ensures forall i :: 0 <= i < |ks| ==> ks[i] in AssignAll(t, ks).ids && AssignAll(t, ks).ids[ks[i]] == t.last + 1 + i
    decreases |ks|
  {
    if ks != [] {
      var t1 := AssignId(t, ks[0]).1;
      var rest := ks[1..];
      forall i | 0 <= i < |rest| ensures rest[i] !in t1.ids {
        assert rest[i] == ks[i + 1];
      }
      FreshKeysGetConsecutiveIds(t1, rest);
      AssignAllKeepsIds(t1, rest, ks[0]);
      forall i | 0 <= i < |ks|
        ensures ks[i] in AssignAll(t, ks).ids && AssignAll(t, ks).ids[ks[i]] == t.last + 1 + i
      {
        if i > 0 {
          assert ks[i] == rest[i - 1];
        }
      }
    }
  }

  /** The static counter and static ids of one instantiation type_map<V>. Every type_map<V> object
      shares it; a different V has a counter object of its own. */
  class TypeIdCounter<K(==)> {
    var lastTypeId: int
    var ids: map<K, int>
    /** Which key type holds each id handed out: the witness that no two key types share one. */
    ghost var owner: map<int, K>

    ghost function Table(): IdTable<K>
      reads this
    {
      IdTable(ids, lastTypeId)
    }

    ghost predicate Valid()
      reads this
    {
      && 0 <= lastTypeId
      && forall k :: k in ids ==> 1 <= ids[k] <= lastTypeId && ids[k] in owner && owner[ids[k]] == k
    }

    /** A valid counter's table is well formed. */
    lemma TableWellFormed()
      requires Valid()
      ensures WellFormed(Table())
    {
    }

    /** static std::atomic<int> last_type_id(0) */
    constructor ()
      ensures Valid() && Table() == EmptyTable()
    {
      lastTypeId := 0;
      ids := map[];
      owner := map[];
    }

    /** type_id<K>(): stable per key, distinct across keys; touches no other counter. */
    method TypeId(k: K) returns (id: int)
      requires Valid()
      modifies this
      ensures Valid()
      ensures (id, Table()) == AssignId(old(Table()), k)
    {
      if k in ids {
        id := ids[k];
      } else {
        lastTypeId := lastTypeId + 1;
        id := lastTypeId;
        ids := ids[k := id];
        owner := owner[id := k];
      }
    }
  }

  /** The entries are stored under ids the counter has handed out, and contents is what they
      hold under each key type's id. */
  ghost predicate Represents<K(!new), V>(contents: map<K, V>, t: IdTable<K>, entries: map<int, V>)
  {
    && (forall i :: i in entries ==> 1 <= i <= t.last)
    && (forall k :: k in contents <==> k in t.ids && t.ids[k] in entries)
    && (forall k :: k in contents ==> contents[k] == entries[t.ids[k]])
  }

  /** One type_map<V> object: the internal unordered_map<int, V> plus the counter of its instantiation.
      Contents is the map as seen through the key types: the entry stored under each key type's id. */
  class TypeMap<K(==, !new), V> {
    const counter: TypeIdCounter<K>
    var entries: map<int, V>
    ghost var Contents: map<K, V>

    ghost predicate Valid()
      reads this, counter
    {
      counter.Valid() && Represents(Contents, counter.Table(), entries)
    }

    constructor (counter: TypeIdCounter<K>)
      requires counter.Valid()
      ensures Valid() && this.counter == counter && entries == map[] && Contents == map[]
    {
      this.counter := counter;
      entries := map[];
      Contents := map[];
    }

    /** contains<K>(): whether K has an entry; it may hand K an id, nothing else changes. */
    method Contains(k: K) returns (b: bool)
      requires Valid()
      modifies counter
      ensures Valid() && entries == old(entries)
      ensures counter.Table() == AssignId(old(counter.Table()), k).1
      ensures b == (k in Contents)
    {
      var id := counter.TypeId(k);
      b := id in entries;
    }

    /** find<K>(): end() (None) when K has no entry, otherwise K's entry; the map is not modified. */
    method Find(k: K) returns (r: Option<V>)
      requires Valid()
      modifies counter
      ensures Valid() && entries == old(entries)
      ensures counter.Table() == AssignId(old(counter.Table()), k).1
      ensures r == if k in Contents then Some(Contents[k]) else None
    {
      var id := counter.TypeId(k);
      r := if id in entries then Some(entries[id]) else None;
    }

    /** put<K>(v): insert-once. On a present key it throws "already present" and changes no entry;
        otherwise it stores v under type_id<K>() and no other entry changes. */
    method Put(k: K, v: V) returns (o: Outcome<Error<K>>)
      requires Valid()
      modifies this, counter
      ensures Valid() && counter.Table() == AssignId(old(counter.Table()), k).1
      ensures k in old(Contents) ==> o == Fail(AlreadyPresent(k)) && entries == old(entries) && Contents == old(Contents)
      ensures k !in old(Contents) ==> o.Pass? && Contents == old(Contents)[k := v]
    {
      var present := Contains(k);
      if present {
        o := Fail(AlreadyPresent(k));
      } else {
        var id := counter.TypeId(k);
        entries := entries[id := v];
        Contents := Contents[k := v];
        o := Pass;
      }
    }
  }
}
