/** The exceptions the dependency-injection container throws, over a key type K standing for C++ types. */
module Errors {
  import opened Wrappers

  datatype Error<K> =
    /** type_map::put on a type that already has an entry ("Object ... already present"). */
    | AlreadyPresent(key: K)
    /** di_config::toposort_visit_node reached a node marked TEMP ("... appears to be part of a cycle");
        the label is the node's debug type name, absent for a node that never received an initializer. */
    | CyclicDependency(typeName: Option<K>)
    /** injector::get_instance<T, Dependent> found no instance of T; Dependent is None for a direct query. */
    | UnsatisfiedDependency(missing: K, dependent: Option<K>)
}
