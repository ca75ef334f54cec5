/**
 * What the build rules of the packaged Java targets are assembled from:
 * `java_binary` and `java_fat_library` bundle their packaging classpath (after
 * the Maven version conflicts are resolved), `java_test` its test classpath;
 * in every case the target's own build variable comes first, followed by the
 * build variables of its dependencies.
 */
module Planner {

  import opened Strings
  import opened Targets
  import opened Classify
  import opened Resolver
  import opened Expander

  /** No two positions of `s` hold the same string. */
  predicate Distinct(s: seq<string>)
  {
    forall i, j | 0 <= i < j < |s| :: s[i] != s[j]
  }

  /** The target's own build variable as a set: empty when it has none. */
  function OwnVar(t: Target): set<string>
  {
    if t.jarVar != "" then {t.jarVar} else {}
  }

  /**
   * The build variables a one-jar or a fat jar is made from: the target's own
   * `jar_var` when it has one, then the dependencies' build variables in the
   * order given.
   */
  function JarSources(jarVar: string, depJarVars: seq<string>): (r: seq<string>)
    ensures jarVar != "" ==> |r| > 0 && r[0] == jarVar
    ensures |r| >= |depJarVars| && r[|r| - |depJarVars|..] == depJarVars
    ensures |r| - |depJarVars| <= 1
    ensures Elems(r) == Elems(depJarVars) + (if jarVar != "" then {jarVar} else {})
  {
    if jarVar != "" then ElemsConcat([jarVar], depJarVars); [jarVar] + depJarVars
    else depJarVars
  }

  /** A strictly sorted list repeats nothing. */
  lemma SortedDistinct(s: seq<string>)
    requires StrictlySorted(s)
    ensures Distinct(s)
  {
    forall i, j | 0 <= i < j < |s| ensures s[i] != s[j] {
      LexIrreflexive(s[i]);
    }
  }

  /**
   * Putting the target's own build variable in front of a sorted list that
   * does not hold it repeats nothing.
   */
  lemma JarSourcesDistinct(jarVar: string, depJarVars: seq<string>)
    requires StrictlySorted(depJarVars) && jarVar !in depJarVars
    ensures Distinct(JarSources(jarVar, depJarVars))
  {
    SortedDistinct(depJarVars);
    var r := JarSources(jarVar, depJarVars);
    if jarVar != "" {
      forall i, j | 0 <= i < j < |r| ensures r[i] != r[j] {
        if i == 0 {
          assert r[j] == depJarVars[j - 1];
        } else {
          assert r[i] == depJarVars[i - 1] && r[j] == depJarVars[j - 1];
        }
      }
    }
  }

  // ---------------------------------------------------------------------------
  // A target's own build variable is never among its packaged ones
  // ---------------------------------------------------------------------------

  /** Different registered targets have different build variables. */
  predicate UniqueJarVars(db: Registry)
  {
    forall x, y | x in db && y in db && x != y && db[x].jarVar != "" :: db[x].jarVar != db[y].jarVar
  }

  /**
   * With unique build variables, the build variable of a target `y` ranked no
   * lower than `j` is not packed for `j`: the walk only goes down the
   * dependency order.
   */
  lemma {:induction false} HigherVarNotPacked(db: Registry, rank: map<Key, nat>, j: Key, y: Key)
    requires Ranked(db, rank) && j in db && y in db && UniqueJarVars(db)
    requires db[y].jarVar != "" && rank[y] >= rank[j]
    ensures db[y].jarVar !in PackSets(db, rank, j).vars
    decreases rank[j]
  {
    var ds := PackedDeps(db[j]);
    PackSetsExcluded(db, rank, j, ds);
    var v := db[y].jarVar;
    forall d | d in ds ensures db[d].jarVar != v {
      assert d != y;
    }
    forall d | d in ds ensures v !in JavaPackSets(db, rank, d).vars {
      if db[d].kind != MavenJar {
        HigherVarNotPacked(db, rank, d, y);
      }
    }
  }

  /**
   * When build variables are unique, a target's own build variable is not on
   * its packaging classpath, so a one-jar or fat jar lists it exactly once.
   */
  lemma OwnVarNotPacked(db: Registry, rank: map<Key, nat>, k: Key)
    requires Ranked(db, rank) && k in db && UniqueJarVars(db)
    ensures db[k].jarVar !in PackSets(db, rank, k).vars
  {
    if db[k].jarVar != "" {
      HigherVarNotPacked(db, rank, k, k);
    } else {
      NoEmptyPackVar(db, rank, k);
    }
  }

  /**
   * An empty build variable never reaches the packaging classpath: only
   * targets that have one contribute theirs.
   */
  lemma {:induction false} NoEmptyPackVar(db: Registry, rank: map<Key, nat>, j: Key)
    requires Ranked(db, rank) && j in db
    ensures "" !in PackSets(db, rank, j).vars
    decreases rank[j]
  {
    var ds := PackedDeps(db[j]);
    PackSetsExcluded(db, rank, j, ds);
    forall d | d in ds ensures "" !in JavaPackSets(db, rank, d).vars {
      if db[d].kind != MavenJar {
        NoEmptyPackVar(db, rank, d);
      }
    }
  }

  // ---------------------------------------------------------------------------
  // `scons_rules` of `java_binary`, `java_fat_library` and `java_test`
  // ---------------------------------------------------------------------------

  /**
   * The one-jar of a `java_binary` and the fat jar of a `java_fat_library`:
   * the target's own build variable, then its packaged build variables in
   * sorted order, and the packaged jar files once the Maven version conflicts
   * are resolved against the target's direct Maven dependencies.
   */
  method PackagedJar(db: Registry, ghost rank: map<Key, nat>, k: Key) returns (sources: seq<string>, jars: seq<string>)
    requires Ranked(db, rank) && k in db
    ensures db[k].jarVar != "" ==> |sources| > 0 && sources[0] == db[k].jarVar && StrictlySorted(sources[1..])
    ensures db[k].jarVar == "" ==> StrictlySorted(sources)
    ensures Elems(sources) == OwnVar(db[k]) + PackSets(db, rank, k).vars
    ensures UniqueJarVars(db) ==> Distinct(sources)
    ensures Resolved(ParseRepoPath, PackSets(db, rank, k).jars, MavenIdsOf(db, db[k].deps), jars)
  {
    var depJarVars, depJars := GetPackDeps(db, rank, k);
    assert forall d | d in db[k].deps :: d in db;
    jars := DetectMavenConflictedDeps(db, db[k].deps, depJars);
    sources := JarSources(db[k].jarVar, depJarVars);
    if db[k].jarVar != "" {
      assert sources[1..] == depJarVars;
    }
    if UniqueJarVars(db) {
      OwnVarNotPacked(db, rank, k);
      assert db[k].jarVar !in Elems(depJarVars);
      JarSourcesDistinct(db[k].jarVar, depJarVars);
    }
  }

  /**
   * The one-jar of a `java_test`: the target's own build variable, then the
   * build variables of its expanded deps in sorted order, and the jar files of
   * its test classpath.
   */
  method TestJar(db: Registry, k: Key) returns (sources: seq<string>, jars: seq<string>)
    requires k in db
    requires forall d :: d in db[k].deps ==> d in db
    requires forall d :: d in db[k].expandedDeps ==> d in db
    ensures Elems(db[k].expandedDeps) <= db.Keys
    ensures db[k].jarVar != "" ==> |sources| > 0 && sources[0] == db[k].jarVar && StrictlySorted(sources[1..])
    ensures db[k].jarVar == "" ==> StrictlySorted(sources)
    ensures Elems(sources) == OwnVar(db[k]) + JarVarSet(db, Elems(db[k].expandedDeps))
    ensures Resolved(ParseRepoPath,
                     BinaryJarSet(db, Elems(db[k].expandedDeps)) + MavenDepsSet(db, Elems(db[k].expandedDeps)),
                     MavenIdsOf(db, db[k].deps), jars)
  {
    var depJarVars, depJars := GetTestDeps(db, k);
    jars := depJars;
    sources := JarSources(db[k].jarVar, depJarVars);
    if db[k].jarVar != "" {
      assert sources[1..] == depJarVars;
    }
  }
}
