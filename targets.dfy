/**
 * The target graph the Java rules read and, for implicitly created Maven jars,
 * extend: blade's target database, a dictionary from target key to target.
 */
module Targets {

  import opened Strings

  /** A target's identity (path, name); implicitly added Maven jars use path "#". */
  datatype Key = Key(path: string, name: string)

  /** The `type` of the targets this engine deals with. */
  datatype Kind = MavenJar | JavaLibrary | PrebuiltJavaLibrary | JavaBinary | JavaTest | JavaFatLibrary

  /**
   * A registered target: its dependency lists and the entries of its `data`
   * dictionary that the dependency engine reads. A string entry that is missing,
   * None or empty (all falsy to Python) is "".
   */
  datatype Target = Target(
    kind: Kind,
    id: string,               // data['id'] of a maven_jar: group:artifact:version
    deps: seq<Key>,
    expandedDeps: seq<Key>,
    jarVar: string,           // data['jar_var']: the build variable of the target's own jar
    binaryJar: string,        // data['binary_jar']: a jar file on disk
    mavenDeps: seq<string>,   // data['maven_deps']: jar files of a maven_jar's own dependencies
    exportedDeps: seq<Key>,
    providedDeps: seq<Key>,
    exclusions: seq<Key>,
    mainClass: string)

  type Registry = map<Key, Target>

  /** The key under which an implicitly added Maven jar is registered. */
  function MavenKey(name: string): Key
  {
    Key("#", name)
  }

  /**
   * A `MavenJar(name, id, is_implicit_added=True)` as it stands before its rules
   * are generated: no deps, and no jar paths resolved yet.
   */
  function ImplicitMavenJar(id: string): (t: Target)
    ensures t.kind == MavenJar && t.id == id
    ensures t.deps == [] && t.expandedDeps == [] && t.exportedDeps == [] && t.providedDeps == [] && t.exclusions == []
    ensures t.jarVar == "" && t.binaryJar == "" && t.mavenDeps == []
  {
    Target(MavenJar, id, [], [], "", "", [], [], [], [], "")
  }

  /**
   * What the recursive packaging walk needs of the registry: every dependency
   * and every exclusion of a registered target is registered, and `rank`
   * orders the `deps` graph, each dependency ranking below the target that
   * depends on it, so the graph has no cycle.
   */
  ghost predicate Ranked(db: Registry, rank: map<Key, nat>)
  {
    && db.Keys <= rank.Keys
    && (forall k, d | k in db && d in db[k].deps :: d in db && rank[d] < rank[k])
    && (forall k, e | k in db && e in db[k].exclusions :: e in db)
  }

  /** blade's target database, which rules register their targets into. */
  class TargetDatabase {
    var targets: Registry

    constructor ()
      ensures targets == map[]
    {
      targets := map[];
    }

    /** `blade.blade.register_target`: file the target under its key. */
    method Register(key: Key, t: Target)
      modifies this
      ensures targets == old(targets)[key := t]
    {
      targets := targets[key := t];
    }
  }
}
