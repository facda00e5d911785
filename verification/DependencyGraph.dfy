/** The dependency graph of a derivation and its build order
    (src/Nix/DependencyGraph.hs). */
module DependencyGraph {
  import opened Basics
  import opened Derivations
  import opened Digraph

  datatype DepNode = DepNode(path: StorePath, drv: Derivation, deps: seq<StorePath>)

  type DepGraph = map<StorePath, DepNode>

  /** The graph a dependency list denotes; a dependency outside it dangles. */
  function Dependencies(g: DepGraph): Graph {
    map n | n in g :: Elements(g[n].deps)
  }

  function DirectDeps(g: DepGraph, n: StorePath): seq<StorePath> {
    if n in g then g[n].deps else []
  }
}
