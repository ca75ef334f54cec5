/**
 * The dependency classifier: a raw `deps` list mixes target references with
 * Maven ids (group:artifact:version), and `_filter_deps` separates the two.
 */
module Classify {

  import opened Strings
  import opened Targets

  /** The elements of `s` whose `isValidId` verdict is `want`, in their order. */
  function Select(s: seq<string>, isValidId: string -> bool, want: bool): seq<string>
  {
    if s == [] then []
    else
      var rest := Select(s[..|s| - 1], isValidId, want);
      if isValidId(s[|s| - 1]) == want then rest + [s[|s| - 1]] else rest
  }

  /** What is selected comes from `s` and got the wanted verdict. */
  lemma {:induction false} SelectSound(s: seq<string>, isValidId: string -> bool, want: bool)
    ensures forall x :: x in Select(s, isValidId, want) ==> x in s && isValidId(x) == want
  {
    if s != [] {
      SelectSound(s[..|s| - 1], isValidId, want);
    }
  }

  lemma SelectSnoc(s: seq<string>, x: string, isValidId: string -> bool, want: bool)
    ensures Select(s + [x], isValidId, want)
         == if isValidId(x) == want then Select(s, isValidId, want) + [x] else Select(s, isValidId, want)
  {
    assert (s + [x])[..|s|] == s;
  }

  /** Every element lands in exactly one of the two selections. */
  lemma {:induction false} SelectPartition(s: seq<string>, isValidId: string -> bool)
    ensures multiset(Select(s, isValidId, false)) + multiset(Select(s, isValidId, true)) == multiset(s)
  {
    if s != [] {
      SelectPartition(s[..|s| - 1], isValidId);
      assert s == s[..|s| - 1] + [s[|s| - 1]];
    }
  }

  /**
   * `_filter_deps`: split `deps` into the target references (`filtered_deps`)
   * and the Maven ids (`filterouted_deps`), keeping the order of each.
   */
  method FilterDeps(deps: seq<string>, isValidId: string -> bool)
    returns (targetSpecs: seq<string>, mavenIds: seq<string>)
    ensures forall x :: x in targetSpecs ==> !isValidId(x)
    ensures forall x :: x in mavenIds ==> isValidId(x)
    ensures multiset(targetSpecs) + multiset(mavenIds) == multiset(deps)
    ensures targetSpecs == Select(deps, isValidId, false)
    ensures mavenIds == Select(deps, isValidId, true)
  {
    targetSpecs, mavenIds := [], [];
    var i := 0;
    while i < |deps|
      invariant 0 <= i <= |deps|
      invariant targetSpecs == Select(deps[..i], isValidId, false)
      invariant mavenIds == Select(deps[..i], isValidId, true)
    {
      PrefixSnoc(deps, i);
      if isValidId(deps[i]) {
        mavenIds := mavenIds + [deps[i]];
      } else {
        targetSpecs := targetSpecs + [deps[i]];
      }
      i := i + 1;
    }
    assert deps[..i] == deps;
    SelectPartition(deps, isValidId);
    SelectSound(deps, isValidId, false);
    SelectSound(deps, isValidId, true);
  }

  /** The ids of the `maven_jar` targets among `deps` that have one. */
  function MavenIdsOf(db: Registry, deps: seq<Key>): set<string>
    requires forall d :: d in deps ==> d in db
  {
    set d | d in deps && db[d].kind == MavenJar && db[d].id != "" :: db[d].id
  }

  /** `_collect_maven_dep_ids`: the Maven ids the target asks for directly. */
  method CollectMavenDepIds(db: Registry, deps: seq<Key>) returns (ids: set<string>)
    requires forall d :: d in deps ==> d in db
    ensures forall x :: x in ids <==> exists d :: d in deps && db[d].kind == MavenJar && db[d].id == x && x != ""
    ensures ids == MavenIdsOf(db, deps)
  {
    ids := {};
    var i := 0;
    while i < |deps|
      invariant 0 <= i <= |deps|
      invariant ids == MavenIdsOf(db, deps[..i])
    {
      var dep := db[deps[i]];
      PrefixSnoc(deps, i);
      if dep.kind == MavenJar && dep.id != "" {
        ids := ids + {dep.id};
      }
      i := i + 1;
    }
    assert deps[..i] == deps;
  }
}
