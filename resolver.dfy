/**
 * `_detect_maven_conflicted_deps`: among the jar files of a classpath, paths
 * inside a local Maven repository are grouped by (group, artifact), and only
 * one version of each artifact is kept.
 */
module Resolver {

  import opened Wrappers
  import opened Strings
  import opened Targets
  import opened Classify

  /** The directory of the local Maven repository, as it appears inside a jar path. */
  const MavenRepo: string := ".m2/repository/"

  /** What a repository path `<group dirs>/<artifact>/<version>/<file>` names. */
  datatype Coord = Coord(group: string, artifact: string, version: string, name: string)

  /** What the table remembers for one (group, artifact): `(version, name, jar)`. */
  datatype Entry = Entry(version: string, name: string, jar: string)

  /**
   * The coordinate of a jar path: the text after the first `.m2/repository/`,
   * split on '/', needs at least four parts; the last three are artifact,
   * version and file name, and the group is the rest joined with '.'.
   */
  function ParseRepoPath(jar: string): (r: Option<Coord>)
    ensures !Contains(jar, MavenRepo) ==> r.None?
  {
    match Find(jar, MavenRepo)
    case None => None
    case Some(i) =>
      var parts := Split(jar[i + |MavenRepo|..], '/');
      var n := |parts|;
      if n < 4 then None
      else Some(Coord(Join(parts[..n - 3], "."), parts[n - 3], parts[n - 2], parts[n - 1]))
  }

  /** The path a Maven build lays out for a coordinate whose group has the given directories. */
  function RepoLayout(prefix: string, groupDirs: seq<string>, artifact: string, version: string, name: string): string
  {
    prefix + MavenRepo + Join(groupDirs + [artifact, version, name], "/")
  }

  /**
   * When `.m2/repository/` first occurs right after `prefix`, it still does
   * whatever follows.
   */
  lemma FindAfterPrefix(prefix: string, rest: string)
    requires Find(prefix + MavenRepo, MavenRepo) == Some(|prefix|)
    ensures Find(prefix + MavenRepo + rest, MavenRepo) == Some(|prefix|)
  {
    var head := prefix + MavenRepo;
    var jar := head + rest;
    assert OccursAt(jar, MavenRepo, |prefix|) by {
      assert jar[|prefix|..|prefix| + |MavenRepo|] == MavenRepo;
    }
    forall j | 0 <= j < |prefix| ensures !OccursAt(jar, MavenRepo, j) {
      assert !OccursAt(head, MavenRepo, j);
      assert jar[j..j + |MavenRepo|] == head[j..j + |MavenRepo|];
    }
    assert Contains(jar, MavenRepo);
  }

  /** A prefix without '.' cannot hold `.m2/repository/`, so the first occurrence follows it. */
  lemma FindAfterDotFree(prefix: string)
    requires '.' !in prefix
    ensures Find(prefix + MavenRepo, MavenRepo) == Some(|prefix|)
  {
    var head := prefix + MavenRepo;
    assert OccursAt(head, MavenRepo, |prefix|) by {
      assert head[|prefix|..] == MavenRepo;
    }
    forall j | 0 <= j < |prefix| ensures !OccursAt(head, MavenRepo, j) {
      assert head[j] == prefix[j] != '.';
      assert head[j..j + |MavenRepo|][0] == head[j];
    }
    assert Contains(head, MavenRepo);
  }

  /**
   * Parsing inverts the repository layout: the group directories come back
   * joined with dots, the last three segments as artifact, version and file.
   */
  lemma ParseRepoLayout(prefix: string, groupDirs: seq<string>, artifact: string, version: string, name: string)
    requires Find(prefix + MavenRepo, MavenRepo) == Some(|prefix|)
    requires |groupDirs| >= 1
    requires forall d :: d in groupDirs + [artifact, version, name] ==> '/' !in d
    ensures ParseRepoPath(RepoLayout(prefix, groupDirs, artifact, version, name))
            == Some(Coord(Join(groupDirs, "."), artifact, version, name))
  {
    var parts := groupDirs + [artifact, version, name];
    var rest := Join(parts, "/");
    var jar := prefix + MavenRepo + rest;
    FindAfterPrefix(prefix, rest);
    assert jar[|prefix| + |MavenRepo|..] == rest;
    SplitJoin(parts, '/');
    var n := |parts|;
    assert parts[..n - 3] == groupDirs;
  }

  /** In `/u/a.b/.m2/repository/` the repository directory is found after the dotted directory. */
  lemma DottedPrefixFind()
    ensures Find("/u/a.b/" + MavenRepo, MavenRepo) == Some(|"/u/a.b/"|)
  {
    var head := "/u/a.b/" + MavenRepo;
    assert OccursAt(head, MavenRepo, 7) by {
      assert head[7..] == MavenRepo;
    }
    forall j | 0 <= j < 7 ensures !OccursAt(head, MavenRepo, j) {
      assert head[j + 1] != MavenRepo[1];
    }
    assert Contains(head, MavenRepo);
  }

  /** A repository under a directory whose name holds a '.' parses all the same. */
  lemma DottedPrefixParses()
    ensures ParseRepoPath("/u/a.b/" + MavenRepo + "g/x/1/x.jar") == Some(Coord("g", "x", "1", "x.jar"))
  {
    DottedPrefixFind();
    assert Join(["x.jar"], "/") == "x.jar";
    assert Join(["1", "x.jar"], "/") == "1/x.jar";
    assert Join(["x", "1", "x.jar"], "/") == "x/1/x.jar";
    assert Join(["g", "x", "1", "x.jar"], "/") == "g/x/1/x.jar";
    assert ["g"] + ["x", "1", "x.jar"] == ["g", "x", "1", "x.jar"];
    ParseRepoLayout("/u/a.b/", ["g"], "x", "1", "x.jar");
    assert Join(["g"], ".") == "g";
  }

  /**
   * A reading of coordinates off jar paths. The selection rules below hold for
   * any such reading; the resolver uses `ParseRepoPath`.
   */
  type Parser = string -> Option<Coord>

  /** Whether a jar path lies in the local repository and parses. */
  predicate InRepo(parse: Parser, jar: string)
  {
    parse(jar).Some?
  }

  /** The (group, artifact) a parsed jar belongs to. */
  function ArtifactOf(parse: Parser, jar: string): (string, string)
    requires InRepo(parse, jar)
  {
    var c := parse(jar).value;
    (c.group, c.artifact)
  }

  function VersionOf(parse: Parser, jar: string): string
    requires InRepo(parse, jar)
  {
    parse(jar).value.version
  }

  /** `':'.join((group, artifact, version))`: the Maven id of a version of an artifact. */
  function MavenId(art: (string, string), version: string): string
  {
    art.0 + ":" + art.1 + ":" + version
  }

  /** The Maven id a parsed jar provides. */
  function IdOf(parse: Parser, jar: string): string
    requires InRepo(parse, jar)
  {
    MavenId(ArtifactOf(parse, jar), VersionOf(parse, jar))
  }

  /** The table entry recording a parsed jar. */
  function EntryFor(parse: Parser, jar: string): Entry
    requires InRepo(parse, jar)
  {
    var c := parse(jar).value;
    Entry(c.version, c.name, jar)
  }

  // ---------------------------------------------------------------------------
  // What the resolver promises about the surviving paths
  // ---------------------------------------------------------------------------

  /** Jars outside the repository, or too short to parse, always survive. */
  ghost predicate KeepsUnparsed(parse: Parser, jars: set<string>, kept: set<string>)
  {
    forall x | x in jars && !InRepo(parse, x) :: x in kept
  }

  /** Every artifact present keeps exactly one of its jars. */
  ghost predicate OnePerArtifact(parse: Parser, jars: set<string>, kept: set<string>)
  {
    && (forall x | x in jars && InRepo(parse, x) :: exists y :: y in kept && InRepo(parse, y) && ArtifactOf(parse, y) == ArtifactOf(parse, x))
    && (forall y, z | y in kept && z in kept && InRepo(parse, y) && InRepo(parse, z) && ArtifactOf(parse, y) == ArtifactOf(parse, z) :: y == z)
  }

  /** Every version of `x`'s artifact among `jars` that the target asks for directly is `x`'s version. */
  ghost predicate SoleDirect(parse: Parser, jars: set<string>, direct: set<string>, x: string)
    requires InRepo(parse, x)
  {
    forall y | y in jars && InRepo(parse, y) && ArtifactOf(parse, y) == ArtifactOf(parse, x) && IdOf(parse, y) in direct :: VersionOf(parse, y) == VersionOf(parse, x)
  }

  /** No version of the artifact among `jars` is asked for directly. */
  ghost predicate NoneDirect(parse: Parser, jars: set<string>, direct: set<string>, art: (string, string))
  {
    forall y | y in jars && InRepo(parse, y) && ArtifactOf(parse, y) == art :: IdOf(parse, y) !in direct
  }

  /** When exactly one version of an artifact is a direct dependency, that version is kept. */
  ghost predicate DirectVersionWins(parse: Parser, jars: set<string>, direct: set<string>, kept: set<string>)
  {
    forall x | x in jars && InRepo(parse, x) && IdOf(parse, x) in direct && SoleDirect(parse, jars, direct, x) ::
      exists y :: y in kept && InRepo(parse, y) && ArtifactOf(parse, y) == ArtifactOf(parse, x) && VersionOf(parse, y) == VersionOf(parse, x)
  }

  /** When no version is a direct dependency, the kept one is greatest under string order. */
  ghost predicate GreatestVersionWins(parse: Parser, jars: set<string>, direct: set<string>, kept: set<string>)
  {
    forall y, x | y in kept && InRepo(parse, y) && x in jars && InRepo(parse, x) && ArtifactOf(parse, x) == ArtifactOf(parse, y)
                  && NoneDirect(parse, jars, direct, ArtifactOf(parse, y)) ::
      !LexLess(VersionOf(parse, y), VersionOf(parse, x))
  }

  /**
   * When some version of an artifact is a direct dependency, the kept version
   * is a direct one too: a direct version is never given up for another.
   */
  ghost predicate DirectPreferred(parse: Parser, jars: set<string>, direct: set<string>, kept: set<string>)
  {
    forall y, x | y in kept && InRepo(parse, y) && x in jars && InRepo(parse, x) && ArtifactOf(parse, x) == ArtifactOf(parse, y)
                  && IdOf(parse, x) in direct ::
      IdOf(parse, y) in direct
  }

  /**
   * `r` is a valid outcome of resolving `jars`: sorted, distinct, drawn from
   * `jars`, and obeying every rule above.
   */
  ghost predicate Resolved(parse: Parser, jars: set<string>, direct: set<string>, r: seq<string>)
  {
    && StrictlySorted(r)
    && Elems(r) <= jars
    && KeepsUnparsed(parse, jars, Elems(r))
    && OnePerArtifact(parse, jars, Elems(r))
    && DirectVersionWins(parse, jars, direct, Elems(r))
    && DirectPreferred(parse, jars, direct, Elems(r))
    && GreatestVersionWins(parse, jars, direct, Elems(r))
  }

  // ---------------------------------------------------------------------------
  // The loop invariant and how each branch keeps it
  // ---------------------------------------------------------------------------

  /**
   * The table holds, per artifact, a visited parsed jar of that artifact that
   * is not marked conflicted; only visited jars are marked.
   */
  ghost predicate TableSound(parse: Parser, jars: set<string>, done: set<string>,
                             table: map<(string, string), Entry>, conflicted: set<string>)
  {
    && done <= jars
    && conflicted <= done
    && forall a | a in table ::
         && table[a].jar in done && table[a].jar !in conflicted
         && InRepo(parse, table[a].jar) && ArtifactOf(parse, table[a].jar) == a && EntryFor(parse, table[a].jar) == table[a]
  }

  /**
   * Every visited jar is accounted for: an unparsed one is never marked, a
   * parsed one is either its artifact's table entry or marked conflicted.
   */
  ghost predicate Covered(parse: Parser, done: set<string>, table: map<(string, string), Entry>, conflicted: set<string>)
  {
    && (forall x | x in done && !InRepo(parse, x) :: x !in conflicted)
    && (forall x | x in done && InRepo(parse, x) :: ArtifactOf(parse, x) in table && (x == table[ArtifactOf(parse, x)].jar || x in conflicted))
  }

  /** A visited jar whose version is the sole direct one has its version in the table. */
  ghost predicate DirectKept(parse: Parser, jars: set<string>, direct: set<string>, done: set<string>, table: map<(string, string), Entry>)
  {
    forall x | x in done && InRepo(parse, x) && IdOf(parse, x) in direct && SoleDirect(parse, jars, direct, x) ::
      ArtifactOf(parse, x) in table && table[ArtifactOf(parse, x)].version == VersionOf(parse, x)
  }

  /** For an artifact with no direct version, the table's version is the greatest visited. */
  ghost predicate GreatestKept(parse: Parser, jars: set<string>, direct: set<string>, done: set<string>, table: map<(string, string), Entry>)
  {
    forall x | x in done && InRepo(parse, x) && NoneDirect(parse, jars, direct, ArtifactOf(parse, x)) ::
      ArtifactOf(parse, x) in table && !LexLess(table[ArtifactOf(parse, x)].version, VersionOf(parse, x))
  }

  /** An artifact with a visited direct version has a direct version in the table. */
  ghost predicate DirectEntry(parse: Parser, direct: set<string>, done: set<string>, table: map<(string, string), Entry>)
  {
    forall x | x in done && InRepo(parse, x) && IdOf(parse, x) in direct ::
      ArtifactOf(parse, x) in table && MavenId(ArtifactOf(parse, x), table[ArtifactOf(parse, x)].version) in direct
  }

  /** The loop invariant of the resolver, once the jars in `done` are visited. */
  ghost predicate Tracked(parse: Parser, jars: set<string>, direct: set<string>, done: set<string>,
                          table: map<(string, string), Entry>, conflicted: set<string>)
  {
    && TableSound(parse, jars, done, table, conflicted)
    && Covered(parse, done, table, conflicted)
    && DirectKept(parse, jars, direct, done, table)
    && DirectEntry(parse, direct, done, table)
    && GreatestKept(parse, jars, direct, done, table)
  }

  lemma TrackedStart(parse: Parser, jars: set<string>, direct: set<string>)
    ensures Tracked(parse, jars, direct, {}, map[], {})
  {
  }

  /** A jar that does not parse is skipped. */
  lemma TrackedSkip(parse: Parser, jars: set<string>, direct: set<string>, done: set<string>,
                    table: map<(string, string), Entry>, conflicted: set<string>, x: string)
    requires Tracked(parse, jars, direct, done, table, conflicted)
    requires x in jars && x !in done && !InRepo(parse, x)
    ensures Tracked(parse, jars, direct, done + {x}, table, conflicted)
  {
  }

  /** The first jar of an artifact enters the table. */
  lemma TrackedFirst(parse: Parser, jars: set<string>, direct: set<string>, done: set<string>,
                     table: map<(string, string), Entry>, conflicted: set<string>, x: string)
    requires Tracked(parse, jars, direct, done, table, conflicted)
    requires x in jars && x !in done && InRepo(parse, x) && ArtifactOf(parse, x) !in table
    ensures Tracked(parse, jars, direct, done + {x}, table[ArtifactOf(parse, x) := EntryFor(parse, x)], conflicted)
  {
    var t2 := table[ArtifactOf(parse, x) := EntryFor(parse, x)];
    assert TableSound(parse, jars, done + {x}, t2, conflicted);
    assert Covered(parse, done + {x}, t2, conflicted);
    assert DirectKept(parse, jars, direct, done + {x}, t2);
    assert DirectEntry(parse, direct, done + {x}, t2);
    LexIrreflexive(VersionOf(parse, x));
    assert GreatestKept(parse, jars, direct, done + {x}, t2);
  }

  /** The jar already in the table stays; the new one is conflicted. */
  lemma TrackedKeep(parse: Parser, jars: set<string>, direct: set<string>, done: set<string>,
                    table: map<(string, string), Entry>, conflicted: set<string>, x: string)
    requires Tracked(parse, jars, direct, done, table, conflicted)
    requires x in jars && x !in done && InRepo(parse, x) && ArtifactOf(parse, x) in table
    requires var old_ := table[ArtifactOf(parse, x)];
             MavenId(ArtifactOf(parse, x), old_.version) in direct
             || (IdOf(parse, x) !in direct && !LexLess(old_.version, VersionOf(parse, x)))
    ensures Tracked(parse, jars, direct, done + {x}, table, conflicted + {x})
  {
    var a := ArtifactOf(parse, x);
    var old_ := table[a];
    assert old_.jar in jars && InRepo(parse, old_.jar) && ArtifactOf(parse, old_.jar) == a && VersionOf(parse, old_.jar) == old_.version;
    assert TableSound(parse, jars, done + {x}, table, conflicted + {x});
    assert Covered(parse, done + {x}, table, conflicted + {x});
    if MavenId(a, old_.version) in direct {
      assert IdOf(parse, old_.jar) in direct;
      if IdOf(parse, x) in direct && SoleDirect(parse, jars, direct, x) {
        assert VersionOf(parse, old_.jar) == VersionOf(parse, x);
      }
    }
    assert DirectKept(parse, jars, direct, done + {x}, table);
    assert DirectEntry(parse, direct, done + {x}, table);
    if NoneDirect(parse, jars, direct, a) {
      assert IdOf(parse, old_.jar) !in direct;
    }
    assert GreatestKept(parse, jars, direct, done + {x}, table);
  }

  /** The new jar replaces the one in the table, which becomes conflicted. */
  lemma TrackedReplace(parse: Parser, jars: set<string>, direct: set<string>, done: set<string>,
                       table: map<(string, string), Entry>, conflicted: set<string>, x: string)
    requires Tracked(parse, jars, direct, done, table, conflicted)
    requires x in jars && x !in done && InRepo(parse, x) && ArtifactOf(parse, x) in table
    requires var old_ := table[ArtifactOf(parse, x)];
             MavenId(ArtifactOf(parse, x), old_.version) !in direct
             && (IdOf(parse, x) in direct || LexLess(old_.version, VersionOf(parse, x)))
    ensures Tracked(parse, jars, direct, done + {x}, table[ArtifactOf(parse, x) := EntryFor(parse, x)], conflicted + {table[ArtifactOf(parse, x)].jar})
  {
    var a := ArtifactOf(parse, x);
    var old_ := table[a];
    var t2 := table[a := EntryFor(parse, x)];
    var c2 := conflicted + {old_.jar};
    var d2 := done + {x};
    assert old_.jar in done && old_.jar != x;
    assert TableSound(parse, jars, d2, t2, c2);
    assert Covered(parse, d2, t2, c2);
    ReplaceKeepsDirect(parse, jars, direct, done, table, x);
    ReplaceKeepsDirectEntry(parse, direct, done, table, x);
    ReplaceKeepsGreatest(parse, jars, direct, done, table, x);
  }

  lemma ReplaceKeepsDirect(parse: Parser, jars: set<string>, direct: set<string>, done: set<string>,
                           table: map<(string, string), Entry>, x: string)
    requires DirectKept(parse, jars, direct, done, table)
    requires x in jars && InRepo(parse, x) && ArtifactOf(parse, x) in table
    requires MavenId(ArtifactOf(parse, x), table[ArtifactOf(parse, x)].version) !in direct
    ensures DirectKept(parse, jars, direct, done + {x}, table[ArtifactOf(parse, x) := EntryFor(parse, x)])
  {
    var a := ArtifactOf(parse, x);
    var t2 := table[a := EntryFor(parse, x)];
    forall y | y in done + {x} && InRepo(parse, y) && IdOf(parse, y) in direct && SoleDirect(parse, jars, direct, y)
      ensures ArtifactOf(parse, y) in t2 && t2[ArtifactOf(parse, y)].version == VersionOf(parse, y)
    {
      if y != x && ArtifactOf(parse, y) == a {
        // the table held y's version, which is direct: the new jar would have been conflicted
        assert false;
      }
    }
  }

  lemma ReplaceKeepsDirectEntry(parse: Parser, direct: set<string>, done: set<string>,
                                table: map<(string, string), Entry>, x: string)
    requires DirectEntry(parse, direct, done, table)
    requires InRepo(parse, x) && ArtifactOf(parse, x) in table
    requires MavenId(ArtifactOf(parse, x), table[ArtifactOf(parse, x)].version) !in direct
    ensures DirectEntry(parse, direct, done + {x}, table[ArtifactOf(parse, x) := EntryFor(parse, x)])
  {
    var a := ArtifactOf(parse, x);
    var t2 := table[a := EntryFor(parse, x)];
    forall y | y in done + {x} && InRepo(parse, y) && IdOf(parse, y) in direct
      ensures ArtifactOf(parse, y) in t2 && MavenId(ArtifactOf(parse, y), t2[ArtifactOf(parse, y)].version) in direct
    {
      if y != x && ArtifactOf(parse, y) == a {
        // a direct version was visited, so the table's version would be direct
        assert false;
      }
    }
  }

  lemma ReplaceKeepsGreatest(parse: Parser, jars: set<string>, direct: set<string>, done: set<string>,
                             table: map<(string, string), Entry>, x: string)
    requires GreatestKept(parse, jars, direct, done, table)
    requires x in jars && InRepo(parse, x) && ArtifactOf(parse, x) in table
    requires IdOf(parse, x) in direct || LexLess(table[ArtifactOf(parse, x)].version, VersionOf(parse, x))
    ensures GreatestKept(parse, jars, direct, done + {x}, table[ArtifactOf(parse, x) := EntryFor(parse, x)])
  {
    var a := ArtifactOf(parse, x);
    var w := table[a].version;
    var v := VersionOf(parse, x);
    var t2 := table[a := EntryFor(parse, x)];
    forall y | y in done + {x} && InRepo(parse, y) && NoneDirect(parse, jars, direct, ArtifactOf(parse, y))
      ensures ArtifactOf(parse, y) in t2 && !LexLess(t2[ArtifactOf(parse, y)].version, VersionOf(parse, y))
    {
      if ArtifactOf(parse, y) == a {
        assert IdOf(parse, x) !in direct;
        if y == x {
          LexIrreflexive(v);
        } else {
          assert !LexLess(w, VersionOf(parse, y));
          if VersionOf(parse, y) != w {
            LexTotal(w, VersionOf(parse, y));
            LexTransitive(VersionOf(parse, y), w, v);
          }
          LexAsymmetric(VersionOf(parse, y), v);
        }
      }
    }
  }

  /** Once every jar is visited, the unmarked ones satisfy all the promises. */
  lemma TrackedDone(parse: Parser, jars: set<string>, direct: set<string>,
                    table: map<(string, string), Entry>, conflicted: set<string>)
    requires Tracked(parse, jars, direct, jars, table, conflicted)
    ensures KeepsUnparsed(parse, jars, jars - conflicted)
    ensures OnePerArtifact(parse, jars, jars - conflicted)
    ensures DirectVersionWins(parse, jars, direct, jars - conflicted)
    ensures DirectPreferred(parse, jars, direct, jars - conflicted)
    ensures GreatestVersionWins(parse, jars, direct, jars - conflicted)
  {
    var kept := jars - conflicted;
    forall x | x in jars && InRepo(parse, x)
      ensures exists y :: y in kept && InRepo(parse, y) && ArtifactOf(parse, y) == ArtifactOf(parse, x)
    {
      var y := table[ArtifactOf(parse, x)].jar;
      assert y in kept && InRepo(parse, y) && ArtifactOf(parse, y) == ArtifactOf(parse, x);
    }
    forall x | x in jars && InRepo(parse, x) && IdOf(parse, x) in direct && SoleDirect(parse, jars, direct, x)
      ensures exists y :: y in kept && InRepo(parse, y) && ArtifactOf(parse, y) == ArtifactOf(parse, x) && VersionOf(parse, y) == VersionOf(parse, x)
    {
      var y := table[ArtifactOf(parse, x)].jar;
      assert y in kept && InRepo(parse, y) && ArtifactOf(parse, y) == ArtifactOf(parse, x) && VersionOf(parse, y) == VersionOf(parse, x);
    }
    forall y, x | y in kept && InRepo(parse, y) && x in jars && InRepo(parse, x) && ArtifactOf(parse, x) == ArtifactOf(parse, y)
                  && NoneDirect(parse, jars, direct, ArtifactOf(parse, y))
      ensures !LexLess(VersionOf(parse, y), VersionOf(parse, x))
    {
      assert y == table[ArtifactOf(parse, y)].jar;
    }
    forall y, x | y in kept && InRepo(parse, y) && x in jars && InRepo(parse, x) && ArtifactOf(parse, x) == ArtifactOf(parse, y)
                  && IdOf(parse, x) in direct
      ensures IdOf(parse, y) in direct
    {
      assert y == table[ArtifactOf(parse, y)].jar;
    }
  }

  /**
   * The rule compares versions as strings: of two jars of one artifact at
   * versions 1.9 and 1.10, with neither asked for directly, 1.9 is the one kept.
   */
  lemma NineBeatsTen(parse: Parser, p9: string, p10: string, kept: set<string>)
    requires parse(p9).Some? && parse(p9).value.version == "1.9"
    requires parse(p10).Some? && parse(p10).value.version == "1.10"
    requires ArtifactOf(parse, p9) == ArtifactOf(parse, p10)
    requires kept <= {p9, p10}
    requires OnePerArtifact(parse, {p9, p10}, kept)
    requires GreatestVersionWins(parse, {p9, p10}, {}, kept)
    ensures kept == {p9}
  {
    NineSortsAfterTen();
    var y :| y in kept && InRepo(parse, y) && ArtifactOf(parse, y) == ArtifactOf(parse, p9);
    assert NoneDirect(parse, {p9, p10}, {}, ArtifactOf(parse, p9));
    assert y == p9;
  }

  /** The example above for two repository paths that differ only in the version. */
  lemma NineBeatsTenInRepo(prefix: string, groupDirs: seq<string>, artifact: string,
                           name9: string, name10: string, kept: set<string>)
    requires Find(prefix + MavenRepo, MavenRepo) == Some(|prefix|) && |groupDirs| >= 1
    requires forall d :: d in groupDirs + [artifact, name9, name10] ==> '/' !in d
    requires kept <= {RepoLayout(prefix, groupDirs, artifact, "1.9", name9),
                      RepoLayout(prefix, groupDirs, artifact, "1.10", name10)}
    requires OnePerArtifact(ParseRepoPath, {RepoLayout(prefix, groupDirs, artifact, "1.9", name9),
                                            RepoLayout(prefix, groupDirs, artifact, "1.10", name10)}, kept)
    requires GreatestVersionWins(ParseRepoPath, {RepoLayout(prefix, groupDirs, artifact, "1.9", name9),
                                                 RepoLayout(prefix, groupDirs, artifact, "1.10", name10)}, {}, kept)
    ensures kept == {RepoLayout(prefix, groupDirs, artifact, "1.9", name9)}
  {
    var p9 := RepoLayout(prefix, groupDirs, artifact, "1.9", name9);
    var p10 := RepoLayout(prefix, groupDirs, artifact, "1.10", name10);
    assert forall d :: d in groupDirs + [artifact, "1.9", name9] ==> '/' !in d;
    assert forall d :: d in groupDirs + [artifact, "1.10", name10] ==> '/' !in d;
    ParseRepoLayout(prefix, groupDirs, artifact, "1.9", name9);
    ParseRepoLayout(prefix, groupDirs, artifact, "1.10", name10);
    NineBeatsTen(ParseRepoPath, p9, p10, kept);
  }

  // ---------------------------------------------------------------------------
  // The resolver
  // ---------------------------------------------------------------------------

  /**
   * `_detect_maven_conflicted_deps`: the distinct jars of `depJars`, sorted,
   * less every repository jar that lost to another version of its artifact.
   * The set is visited in any order: what is promised holds for all of them.
   */
  method DetectMavenConflictedDeps(db: Registry, deps: seq<Key>, depJars: seq<string>) returns (r: seq<string>)
    requires forall d :: d in deps ==> d in db
    ensures StrictlySorted(r)
    ensures Elems(r) <= Elems(depJars)
    ensures KeepsUnparsed(ParseRepoPath, Elems(depJars), Elems(r))
    ensures OnePerArtifact(ParseRepoPath, Elems(depJars), Elems(r))
    ensures DirectVersionWins(ParseRepoPath, Elems(depJars), MavenIdsOf(db, deps), Elems(r))
    ensures DirectPreferred(ParseRepoPath, Elems(depJars), MavenIdsOf(db, deps), Elems(r))
    ensures GreatestVersionWins(ParseRepoPath, Elems(depJars), MavenIdsOf(db, deps), Elems(r))
  {
    var jars := Elems(depJars);
    var conflicted: set<string> := {};
    var direct := CollectMavenDepIds(db, deps);
    var table: map<(string, string), Entry> := map[];
    var pending := jars;
    TrackedStart(ParseRepoPath, jars, direct);
    while pending != {}
      invariant pending <= jars
      invariant Tracked(ParseRepoPath, jars, direct, jars - pending, table, conflicted)
      decreases |pending|
    {
      var depJar :| depJar in pending;
      ghost var done := jars - pending;
      pending := pending - {depJar};
      assert jars - pending == done + {depJar};
      var parsed := ParseRepoPath(depJar);
      if parsed.None? {
        TrackedSkip(ParseRepoPath, jars, direct, done, table, conflicted, depJar);
        continue;
      }
      var c := parsed.value;
      var key := (c.group, c.artifact);
      var id := MavenId(key, c.version);
      if key in table {
        var oldValue := table[key];
        var oldId := MavenId(key, oldValue.version);
        if oldId in direct {
          TrackedKeep(ParseRepoPath, jars, direct, done, table, conflicted, depJar);
          conflicted := conflicted + {depJar};
        } else if id in direct || LexLess(oldValue.version, c.version) {
          TrackedReplace(ParseRepoPath, jars, direct, done, table, conflicted, depJar);
          conflicted := conflicted + {oldValue.jar};
          table := table[key := Entry(c.version, c.name, depJar)];
        } else {
          TrackedKeep(ParseRepoPath, jars, direct, done, table, conflicted, depJar);
          conflicted := conflicted + {depJar};
        }
      } else {
        TrackedFirst(ParseRepoPath, jars, direct, done, table, conflicted, depJar);
        table := table[key := Entry(c.version, c.name, depJar)];
      }
    }
    TrackedDone(ParseRepoPath, jars, direct, table, conflicted);
    r := SortedList(jars - conflicted);
  }
}
