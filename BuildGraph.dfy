/**
 * The build-graph entities that the dependency cache reads and never changes:
 * targets, their source files, their declared edges and their transitive walk.
 */
module BuildGraph {

  /** A node of the build graph: a JVM target, a jar dependency or any other target. */
  type Target(==, !new)

  /** A source file of a target. */
  type Source(==, !new)

  /** The (organization, name) coordinate of a jar dependency. */
  datatype Coord = Coord(org: string, name: string)

  /** What kind of node a target is (the source's `isinstance` tests). */
  datatype Kind =
    | JvmTarget
    | JarDependency(coord: Coord)
    | OtherTarget

  /**
   * What the build graph knows about one target. `walk` is the set of nodes
   * that `target.walk` visits: the target itself and everything reachable
   * from it through its dependencies.
   */
  datatype TargetInfo = TargetInfo(
    kind: Kind,
    sources: seq<Source>,
    dependencies: set<Target>,
    declaredDependencies: set<Target>,
    jarDependencies: seq<Target>,
    walk: set<Target>)

  type Graph = Target -> TargetInfo

  /**
   * What the target model guarantees: a walk starts at the target itself, a
   * dependency's walk is part of its dependent's walk, and the jar
   * dependencies a JVM target lists are jar-dependency nodes.
   */
  ghost predicate WellFormed(g: Graph)
  {
    && (forall t :: t in g(t).walk)
    && (forall t, d :: d in g(t).dependencies ==> g(d).walk <= g(t).walk)
    && (forall t, j :: g(t).kind.JvmTarget? && j in g(t).jarDependencies ==> g(j).kind.JarDependency?)
  }
}
