/** What the resolver knows of a candidate package, and the literals that the
    policy and the rules are built from. The pool and the literal class are
    not part of this model; they are represented by the values below. */
module Literals {
  import Packages

  /** A package as placed in the pool, which never changes it again: the
      pool-assigned id (unique within the pool), name, normalized version,
      the repository it was registered from, and its replace links. */
  datatype Package = Package(
    id: nat,
    name: string,
    version: string,
    repository: nat,
    replaceLinks: seq<Packages.Link>)

  /** A literal: its signed id (the sign carries the polarity) and the package
      it is about. */
  datatype Literal = Literal(id: int, package: Package)

  /** The pool's frozen view of an in-memory package, given the id and the
      repository the pool assigned to it. */
  function Freeze(p: Packages.MemoryPackage, id: nat, repository: nat): Package
    reads p
  {
    Package(id, p.name, p.GetVersion(), repository, p.GetReplaces())
  }
}
