/** core::abstract_instance_container and core::instance_container<T, Deleter>
    (Cpp/DI_variadic/abstract_object.hpp): type-erased ownership of one constructed object.
    A pointer is modelled as Option<T>: None is nullptr, Some(x) points at the object x. */
module AbstractObject {
  import opened Wrappers

  /** One container: raw is the base's raw_ptr_, owned is the derived instance_container's
      owning pointer_ (None for a base part built by the move constructor, which owns nothing). */
  class InstanceContainer<T> {
    var raw: Option<T>
    var owned: Option<T>

    /** The container owns what its raw pointer designates. */
    ghost predicate OwnsRaw()
      reads this
    {
      raw == owned
    }

    /** instance_container(std::unique_ptr<T, Deleter>&& p): raw_ptr_ is p.get() and
        pointer_ takes ownership of p. */
    constructor (p: Option<T>)
      ensures raw == p && owned == p && OwnsRaw()
    {
      raw := p;
      owned := p;
    }

    /** abstract_instance_container(abstract_instance_container&& other): *this = std::move(other),
        so the raw pointer moves over and other's becomes null; the base part owns nothing. */
    constructor MoveFrom(other: InstanceContainer<T>)
      modifies other
      ensures raw == old(other.raw) && owned == None
      ensures other.raw == None && other.owned == old(other.owned)
    {
      raw := other.raw;
      owned := None;
      new;
      other.raw := None;
    }

    /** get(): exactly the stored raw pointer. */
    method Get() returns (p: Option<T>)
      ensures p == raw
    {
      p := raw;
    }

    /** operator=(abstract_instance_container&& other): copies other's raw pointer and sets
        other's to null. Ownership is not part of the base class, so owned stays put; a
        self-move therefore leaves the raw pointer null. */
    method MoveAssign(other: InstanceContainer<T>)
      modifies this, other
      ensures other.raw == None
      ensures this != other ==> raw == old(other.raw)
      ensures owned == old(owned) && other.owned == old(other.owned)
    {
      raw := other.raw;
      other.raw := None;
    }
  }

  /** wrap_into_instance_container(ptr): a fresh container whose get() is ptr and which owns it. */
  method WrapIntoInstanceContainer<T>(ptr: Option<T>) returns (c: InstanceContainer<T>)
    ensures fresh(c) && c.raw == ptr && c.OwnsRaw()
  {
    c := new InstanceContainer(ptr);
  }
}
