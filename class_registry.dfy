/** registry<D> (Cpp/crtp/class_registry.cpp): a CRTP base that threads every live object of
    class D onto an intrusive doubly linked list, through the statics count and head of its
    instantiation and the prev/next pointers of each object. */
module ClassRegistry {

  /** The registry<D> part of one object of class D: its list links and the value its
      operator<< prints. stamp is the position of its construction among all objects of D. */
  class Entry {
    var prev: Entry?
    var next: Entry?
    const value: int
    ghost const stamp: nat

    /** registry(): count goes up by one, the object takes the place of head with no
        predecessor and the old head as successor, and the old head points back to it. */
    constructor (reg: Registry, value: int)
      requires reg.Valid()
      modifies reg, reg.Live
      ensures reg.Valid() && reg.Live == [this] + old(reg.Live) && reg.count == old(reg.count) + 1
      ensures reg.head == this && prev == null && next == old(reg.head) && this.value == value
    {
      this.value := value;
      stamp := reg.clock;
      prev := null;
      next := reg.head;
      new;
      reg.Link(this);
    }

    /** registry(const registry&): the copy is a new object and registers exactly as one
        built by the default constructor: the source object's links are not copied (when it
        is the head, its prev comes to point at the copy). value is copied by the derived
        class's own copy constructor. */
    constructor Copy(reg: Registry, other: Entry)
      requires reg.Valid()
      modifies reg, reg.Live
      ensures reg.Valid() && reg.Live == [this] + old(reg.Live) && reg.count == old(reg.count) + 1
      ensures reg.head == this && prev == null && next == old(reg.head) && value == other.value
    {
      value := other.value;
      stamp := reg.clock;
      prev := null;
      next := reg.head;
      new;
      reg.Link(this);
    }

    /** ~registry(): count goes down by one, the neighbours are joined around the object, and
        head moves on to the successor when the object was the head. */
    method Destroy(reg: Registry)
      requires reg.Valid() && this in reg.Live
      modifies reg, reg.Live
      ensures reg.Valid() && reg.count == old(reg.count) - 1
      ensures reg.Live == Without(old(reg.Live), this)
    {
      ghost var k :| 0 <= k < |reg.Live| && reg.Live[k] == this;
      Distinct(reg.Live, k);
      WithoutAt(reg.Live, k);
      reg.Unlink(this, k);
    }
  }

  /** Construction stamps strictly decrease along s: newest first. */
  ghost predicate NewestFirst(s: seq<Entry>)
  {
    forall i :: 0 <= i < |s| - 1 ==> s[i].stamp > s[i + 1].stamp
  }

  /** Along a newest-first list every later object was constructed earlier. */
  lemma {:induction false} StampsDecrease(s: seq<Entry>, i: nat, j: nat)
    requires NewestFirst(s) && i < j < |s|
    ensures s[i].stamp > s[j].stamp
    decreases j - i
  {
    if i + 1 < j {
      StampsDecrease(s, i + 1, j);
    }
  }

  /** On a newest-first list no object appears twice. */
  lemma Distinct(s: seq<Entry>, j: nat)
    requires NewestFirst(s) && j < |s|
    ensures forall i :: 0 <= i < |s| && i != j ==> s[i] != s[j]
  {
    forall i | 0 <= i < |s| && i != j ensures s[i] != s[j] {
      if i < j {
        StampsDecrease(s, i, j);
      } else {
        StampsDecrease(s, j, i);
      }
    }
  }

  /** s with its first occurrence of e taken out. */
  ghost function Without(s: seq<Entry>, e: Entry): seq<Entry>
  {
    if s == [] then []
    else if s[0] == e then s[1..]
    else [s[0]] + Without(s[1..], e)
  }

  /** Taking out e where it first occurs, at k, leaves the objects before and after k. */
  lemma {:induction false} WithoutAt(s: seq<Entry>, k: nat)
    requires k < |s| && forall i :: 0 <= i < k ==> s[i] != s[k]
    ensures Without(s, s[k]) == s[..k] + s[k + 1..]
  {
    if k > 0 {
      WithoutAt(s[1..], k - 1);
      assert s[1..][..k - 1] + s[1..][k..] == s[1..k] + s[k + 1..];
      assert s[..k] == [s[0]] + s[1..k];
    }
  }

  /** On a list without repetitions, taking out e leaves exactly the other objects, one fewer
      when e was there. */
  lemma {:induction false} WithoutMembers(s: seq<Entry>, e: Entry)
    requires forall i, j :: 0 <= i < j < |s| ==> s[i] != s[j]
    ensures forall x :: x in Without(s, e) <==> x in s && x != e
    ensures |Without(s, e)| == if e in s then |s| - 1 else |s|
  {
    if s != [] {
      WithoutMembers(s[1..], e);
      if s[0] != e {
        assert e in s <==> e in s[1..];
      }
    }
  }

  /** The two pointer rewrites of ~registry(): the predecessor, if any, now points forward to
      the successor, and the successor, if any, back to the predecessor. */
  method Bypass(before: Entry?, after: Entry?)
    requires before == null || before != after
    modifies before, after
    ensures before != null ==> before.next == after && before.prev == old(before.prev)
    ensures after != null ==> after.prev == before && after.next == old(after.next)
  {
    if before != null {
      before.next := after;
    }
    if after != null {
      after.prev := before;
    }
  }

  /** The statics count and head of one instantiation registry<D>; each D has its own. Live is
      the list from head along next, and clock the number of objects of D ever constructed. */
  class Registry {
    var count: int
    var head: Entry?
    ghost var Live: seq<Entry>
    ghost var clock: nat

    /** head starts the list, each object's next is the one after it and its prev the one
        before it, the first has no predecessor and the last no successor, count is the
        length, and the list is newest first. */
    ghost predicate Valid()
      reads this, Live
    {
      && count == |Live|
      && (|Live| == 0 ==> head == null)
      && (|Live| != 0 ==> head == Live[0] && Live[0].prev == null && Live[|Live| - 1].next == null)
      && (forall i :: 0 <= i < |Live| ==> Live[i].stamp < clock)
      && (forall i :: 0 < i < |Live| ==> Live[i].prev == Live[i - 1])
      && (forall i :: 0 <= i < |Live| - 1 ==> Live[i].next == Live[i + 1])
      && NewestFirst(Live)
    }

    /** template <typename D> size_t registry<D>::count(0) and D* registry<D>::head(nullptr). */
    constructor ()
      ensures Valid() && count == 0 && head == null && Live == []
    {
      count := 0;
      head := null;
      Live := [];
      clock := 0;
    }

    /** The linking half of both constructors, for an object whose prev is null, whose next is
        the current head and which was stamped with the current clock. */
    method Link(e: Entry)
      requires Valid() && e.prev == null && e.next == head && e.stamp == clock
      modifies this, Live
      ensures Valid() && Live == [e] + old(Live) && count == old(count) + 1 && head == e
      ensures e.prev == null && e.next == old(head)
    {
      ghost var live := Live;
      if |live| != 0 {
        Distinct(live, 0);
      }
      count := count + 1;
      head := e;
      if e.next != null {
        e.next.prev := head;
      }
      Live := [e] + live;
      clock := clock + 1;
      LinkedIsValid(live, e);
    }

    /** What the constructors leave: e in front of the old list, the two pointing at each
        other. */
    lemma LinkedIsValid(live: seq<Entry>, e: Entry)
      requires Live == [e] + live && count == |Live| && head == e && clock == e.stamp + 1
      requires NewestFirst(live) && forall i :: 0 <= i < |live| ==> live[i].stamp < e.stamp
      requires e.prev == null && (|live| == 0 ==> e.next == null)
      requires |live| != 0 ==> e.next == live[0] && live[0].prev == e && live[|live| - 1].next == null
      requires forall i :: 0 < i < |live| ==> live[i].prev == live[i - 1]
      requires forall i :: 0 <= i < |live| - 1 ==> live[i].next == live[i + 1]
      ensures Valid()
    {
      assert forall i :: 0 < i < |Live| ==> Live[i] == live[i - 1];
    }

    /** The unlinking done by the destructor of e. */
    method Unlink(e: Entry, ghost k: nat)
      requires Valid() && k < |Live| && Live[k] == e
      modifies this, Live
      ensures Valid() && count == old(count) - 1
      ensures Live == old(Live)[..k] + old(Live)[k + 1..]
    {
      ghost var live := Live;
      var before, after := e.prev, e.next;
      Neighbours(k);
      count := count - 1;
      Bypass(before, after);
      head := if head == e then after else head;
      Live := live[..k] + live[k + 1..];
      UnlinkedIsValid(live, k);
    }

    /** The neighbours of the k-th object, and the objects that differ from them. */
    lemma Neighbours(k: nat)
      requires Valid() && k < |Live|
      ensures k == 0 ==> Live[k].prev == null
      ensures k > 0 ==> Live[k].prev == Live[k - 1] && forall i :: 0 <= i < |Live| && i != k - 1 ==> Live[i] != Live[k - 1]
      ensures k == |Live| - 1 ==> Live[k].next == null
      ensures k < |Live| - 1 ==> Live[k].next == Live[k + 1] && forall i :: 0 <= i < |Live| && i != k + 1 ==> Live[i] != Live[k + 1]
      ensures forall i :: 0 <= i < |Live| && i != k ==> Live[i] != Live[k]
    {
      Distinct(Live, k);
      if k > 0 {
        Distinct(Live, k - 1);
      }
      if k < |Live| - 1 {
        Distinct(Live, k + 1);
      }
    }

    /** What the destructor leaves: the list without its k-th object is well linked once the
        neighbours of that object point at each other. */
    lemma UnlinkedIsValid(live: seq<Entry>, k: nat)
      requires k < |live| && Live == live[..k] + live[k + 1..] && count == |Live|
      requires NewestFirst(live) && forall i :: 0 <= i < |live| ==> live[i].stamp < clock
      requires forall i :: 0 < i < |live| && i != k && i != k + 1 ==> live[i].prev == live[i - 1]
      requires forall i :: 0 <= i < |live| - 1 && i != k && i != k - 1 ==> live[i].next == live[i + 1]
      requires 0 < k < |live| - 1 ==> live[k - 1].next == live[k + 1] && live[k + 1].prev == live[k - 1]
      requires 0 == k < |live| - 1 ==> live[1].prev == null && head == live[1]
      requires 0 < k == |live| - 1 ==> live[k - 1].next == null
      requires 0 == k == |live| - 1 ==> head == null
      requires k != 0 ==> live[0].prev == null && head == live[0]
      requires k != |live| - 1 ==> live[|live| - 1].next == null
      ensures Valid()
    {
      assert forall i :: 0 <= i < k ==> Live[i] == live[i];
      assert forall i :: k <= i < |Live| ==> Live[i] == live[i + 1];
      if 0 < k < |live| - 1 {
        assert live[k - 1].stamp > live[k].stamp > live[k + 1].stamp;
      }
    }
  }

  /** report<T>(): the total count, then a walk from head along next, visiting (and printing)
      each object in turn: every live object once, newest first. It changes nothing. */
  method Report(reg: Registry) returns (total: int, walk: seq<Entry>)
    requires reg.Valid()
    ensures total == |walk| && walk == reg.Live
    ensures forall i, j :: 0 <= i < j < |walk| ==> walk[i].stamp > walk[j].stamp
  {
    total := reg.count;
    walk := [];
    var p := reg.head;
    while p != null
      invariant |walk| <= |reg.Live| && walk == reg.Live[..|walk|]
      invariant |walk| < |reg.Live| ==> p == reg.Live[|walk|]
      invariant |walk| == |reg.Live| ==> p == null
      decreases |reg.Live| - |walk|
    {
      walk := walk + [p];
      p := p.next;
    }
    forall i, j | 0 <= i < j < |walk| ensures walk[i].stamp > walk[j].stamp {
      StampsDecrease(walk, i, j);
    }
  }

  /** count and head are statics of registry<D>, one pair per D: constructing an object of
      one class leaves the count and head of another class as they were. */
  method ConstructInOther(reg: Registry, other: Registry, value: int)
    returns (countBefore: int, countAfter: int, headBefore: Entry?, headAfter: Entry?)
    requires reg.Valid() && reg != other
    modifies reg, reg.Live
    ensures countAfter == countBefore && headAfter == headBefore
  {
    countBefore, headBefore := other.count, other.head;
    var e := new Entry(reg, value);
    countAfter, headAfter := other.count, other.head;
  }
}
