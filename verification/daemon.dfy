/**
 * The watch handler: how one filesystem notification under `./shaders`
 * is turned into the copies and rewrites of the incremental build. The
 * observer thread and its lifecycle are not modelled; the handler is a
 * pure function of the destination, the world folders computed at start
 * and the event.
 */
module Daemon {
  import opened Wrappers
  import opened Strings
  import opened Paths
  import opened RenderPasses
  import opened Transformer

  /** The class of a watchdog event; the handler reacts only to exactly `FileModifiedEvent`. */
  datatype EventKind = FileModified | DirModified | Created | Deleted | Moved | Closed

  datatype FsEvent = FsEvent(kind: EventKind, srcPath: string)

  /** The outcome of one attempted copy of the world branch, for one configured world. */
  datatype WorldAttempt = WorldAttempt(worldDir: string, result: Result<Action, CopyError>)

  /** `relative_to` raising because the path is not under `./shaders`. */
  datatype HandlerError = NotUnderShaders(path: Path)

  /** What one call of `on_modified` does. */
  datatype Outcome =
    | Ignored
      /** One attempt per world whose directory is a component of the path; failures are logged and swallowed. */
    | WorldCopies(attempts: seq<WorldAttempt>)
    | PropertiesRewrite(rewrite: Action)
    | RelativeCopy(copy: Action)
      /** The exception escapes the handler. */
    | Raised(error: HandlerError)

  /** `Path("./shaders").parts` */
  const SourceRoot: Path := ["shaders"]

  /** The copy of the world branch for one world: `copy_to_dest(path, dest / world_dir, world_folder)`. */
  function Attempt(path: Path, dest: Path, w: WorldFolder): WorldAttempt {
    WorldAttempt(w.worldDir, CopyToDest(path, dest + [w.worldDir], w))
  }

  /** How many configured worlds have their directory as a component of `path`. */
  function MatchCount(path: Path, worlds: seq<WorldFolder>): nat
    decreases |worlds|
  {
    if |worlds| == 0 then 0
    else (if worlds[0].worldDir in path then 1 else 0) + MatchCount(path, worlds[1..])
  }

  /** Counting the matches of a non-empty prefix starts with its first world. */
  lemma MatchCountPrefix(path: Path, worlds: seq<WorldFolder>, k: nat)
    requires 0 < k <= |worlds|
    ensures MatchCount(path, worlds[..k])
      == (if worlds[0].worldDir in path then 1 else 0) + MatchCount(path, worlds[1..][..k - 1])
    ensures MatchCount(path, worlds[..k]) <= MatchCount(path, worlds)
  {
    assert worlds[..k][0] == worlds[0] && worlds[..k][1..] == worlds[1..][..k - 1];
    MatchCountPrefixBound(path, worlds, k);
  }

  /** A prefix has no more matches than the whole list. */
  lemma {:induction false} MatchCountPrefixBound(path: Path, worlds: seq<WorldFolder>, k: nat)
    requires k <= |worlds|
    ensures MatchCount(path, worlds[..k]) <= MatchCount(path, worlds)
    decreases k
  {
    if k > 0 {
      assert worlds[..k][0] == worlds[0] && worlds[..k][1..] == worlds[1..][..k - 1];
      MatchCountPrefixBound(path, worlds[1..], k - 1);
    }
  }

  /** The attempt for each matching world sits at its rank among the matching worlds. */
  ghost predicate AttemptsIndexed(path: Path, dest: Path, worlds: seq<WorldFolder>, r: seq<WorldAttempt>) {
    forall k :: 0 <= k < |worlds| && worlds[k].worldDir in path ==>
      MatchCount(path, worlds[..k]) < |r| && r[MatchCount(path, worlds[..k])] == Attempt(path, dest, worlds[k])
  }

  /** One step of the loop keeps every matching world's attempt at its rank. */
  lemma AttemptsIndexedStep(path: Path, dest: Path, worlds: seq<WorldFolder>, rest: seq<WorldAttempt>, r: seq<WorldAttempt>)
    requires |worlds| > 0 && AttemptsIndexed(path, dest, worlds[1..], rest)
    requires r == if worlds[0].worldDir in path then [Attempt(path, dest, worlds[0])] + rest else rest
    ensures AttemptsIndexed(path, dest, worlds, r)
  {
    forall k | 0 <= k < |worlds| && worlds[k].worldDir in path
      ensures MatchCount(path, worlds[..k]) < |r| && r[MatchCount(path, worlds[..k])] == Attempt(path, dest, worlds[k])
    {
      if k == 0 {
        assert worlds[..k] == [];
      } else {
        MatchCountPrefix(path, worlds, k);
        assert worlds[1..][k - 1] == worlds[k];
      }
    }
  }

  /**
   * The loop of the world branch over the configured worlds, in order:
   * one attempt per world whose directory is a component of the path, the
   * attempt for the `m`-th such world (counting from 0) at position `m`.
   */
  function WorldAttempts(path: Path, dest: Path, worlds: seq<WorldFolder>): (r: seq<WorldAttempt>)
    ensures |r| == MatchCount(path, worlds) <= |worlds|
    ensures AttemptsIndexed(path, dest, worlds, r)
    ensures forall w :: w in worlds && w.worldDir in path ==> Attempt(path, dest, w) in r
    ensures forall a :: a in r ==> exists w :: w in worlds && w.worldDir in path && a == Attempt(path, dest, w)
    ensures (forall w :: w in worlds ==> w.worldDir !in path) ==> r == []
    decreases |worlds|
  {
    if |worlds| == 0 then []
    else
      var rest := WorldAttempts(path, dest, worlds[1..]);
      assert forall w :: w in worlds <==> w == worlds[0] || w in worlds[1..];
      var r := if worlds[0].worldDir in path then [Attempt(path, dest, worlds[0])] + rest else rest;
      AttemptsIndexedStep(path, dest, worlds, rest, r);
      r
  }

  /** `Daemon.on_modified`, with `dest` the destination `shaders` directory. */
  function OnModified(dest: Path, worlds: seq<WorldFolder>, event: FsEvent): (r: Outcome)
    ensures r.Ignored? <==> event.kind != FileModified
    ensures r.WorldCopies? <==> event.kind == FileModified && Contains(event.srcPath, "world")
    ensures r.PropertiesRewrite? <==>
      event.kind == FileModified && !Contains(event.srcPath, "world") && Name(Parts(event.srcPath)) == "shaders.properties"
    ensures r.PropertiesRewrite? ==> r == PropertiesRewrite(RewriteProperties(Parts(event.srcPath), dest + ["shaders.properties"]))
    ensures r.Raised? ==> |Parts(event.srcPath)| == 0 || Parts(event.srcPath)[0] != "shaders"
  {
    if event.kind != FileModified then Ignored
    else
      var path := Parts(event.srcPath);
      if Contains(event.srcPath, "world") then WorldCopies(WorldAttempts(path, dest, worlds))
      else if Name(path) == "shaders.properties" then PropertiesRewrite(RewriteProperties(path, dest + ["shaders.properties"]))
      else match RelativeTo(path, SourceRoot)
        case None => Raised(NotUnderShaders(path))
        case Some(rel) => RelativeCopy(CopyFile(path, dest + rel))
  }

  /**
   * Failure isolation: a modified file whose path mentions "world" never
   * lets an exception escape the handler; each configured world whose
   * directory is a component of the path gets one attempt, which fails
   * exactly when the path is not a key of that world's `files` — there is
   * no fallback to the file's own name.
   */
  lemma WorldBranchIsolated(dest: Path, worlds: seq<WorldFolder>, src: string)
    requires Contains(src, "world")
    ensures var r := OnModified(dest, worlds, FsEvent(FileModified, src));
      && r.WorldCopies?
      && forall a :: a in r.attempts ==>
        exists w :: w in worlds && a.worldDir == w.worldDir && w.worldDir in Parts(src)
          && (a.result.Failure? <==> Parts(src) !in w.files)
          && (a.result.Failure? ==> a.result.error == MissingKey(Parts(src)))
  {
  }

  /**
   * A path mentioning "world" in which no configured world directory is
   * a component (say `shaders/lib/worldspace.glsl`) takes the world
   * branch and does nothing, even when its name is `shaders.properties`.
   */
  lemma WorldSubstringWithoutWorld(dest: Path, worlds: seq<WorldFolder>, src: string)
    requires Contains(src, "world")
    requires forall w :: w in worlds ==> w.worldDir !in Parts(src)
    ensures OnModified(dest, worlds, FsEvent(FileModified, src)) == WorldCopies([])
  {
  }

  /** The path string `shaders/<world_dir>/<entry>` of a world file. */
  lemma WorldFileString(worldDir: string, entry: string)
    requires IsComponent(worldDir) && '/' !in worldDir && IsComponent(entry) && '/' !in entry
    requires Contains(worldDir, "world")
    ensures Parts(PathString(Key(worldDir, entry))) == Key(worldDir, entry)
    ensures Contains(PathString(Key(worldDir, entry)), "world")
  {
    var key := Key(worldDir, entry);
    assert key == ["shaders", worldDir, entry];
    assert Parts(PathString(key)) == key by {
      PartsOfPathString(key);
    }
    assert PathString(key) == key[0] + ['/'] + (worldDir + ['/'] + entry) by {
      JoinThree(key, '/');
    }
    ContainsInMiddle(key[0], worldDir, entry, '/', "world");
  }

  lemma JoinThree(p: Path, sep: char)
    requires |p| == 3
    ensures Join(p, sep) == p[0] + [sep] + (p[1] + [sep] + p[2])
  {
    assert Join(p[1..], sep) == p[1] + [sep] + p[2] by {
      assert p[1..][1..] == [p[2]];
    }
  }

  /** An occurrence in the middle piece of `a/b/c` is an occurrence in the whole. */
  lemma ContainsInMiddle(a: string, b: string, c: string, sep: char, pat: string)
    requires Contains(b, pat)
    ensures Contains(a + [sep] + (b + [sep] + c), pat)
  {
    ContainsInPrefix(b, [sep], pat);
    ContainsInPrefix(b + [sep], c, pat);
    ContainsInSuffix(a + [sep], b + [sep] + c, pat);
  }

  /**
   * The incremental copy agrees with `copy_folder`: when a scanned shader
   * file of a world is modified, the handler's attempt for that world
   * succeeds and performs exactly one of the copies `copy_folder` performs
   * for that world into `dest`. Whether the full build runs `copy_folder`
   * for the world at all depends on its directory name: see
   * `WorldEditInFullBuild` and `WorldEditOutsideFullBuild`.
   */
  lemma WorldEditAgreesWithBuild(dest: Path, worlds: seq<WorldFolder>, w: WorldFolder, entry: string, listing: seq<string>)
    requires forall x :: x in worlds ==> x.Valid()
    requires w in worlds && FilesAssigned(w, listing)
    requires IsComponent(w.worldDir) && '/' !in w.worldDir && Contains(w.worldDir, "world")
    requires IsComponent(entry) && '/' !in entry
    requires entry in listing && IsShaderFile(entry)
    ensures var key := Key(w.worldDir, entry);
      var r := OnModified(dest, worlds, FsEvent(FileModified, PathString(key)));
      && r.WorldCopies?
      && key in w.files
      && WorldAttempt(w.worldDir, Success(CopyFile(key, dest + [w.worldDir, w.files[key]]))) in r.attempts
      && CopyFile(key, dest + [w.worldDir, w.files[key]]) in CopyFolder(dest, w)
  {
    var key := Key(w.worldDir, entry);
    WorldFileString(w.worldDir, entry);
    assert w.worldDir in key;
    assert dest + [w.worldDir] + [w.files[key]] == dest + [w.worldDir, w.files[key]];
  }

  /**
   * For a world directory whose name starts with "world" and that
   * `./shaders` lists as a directory, the handler's copy is one of the
   * actions of the full build into `out` (whose `shaders` directory is
   * the handler's destination).
   */
  lemma WorldEditInFullBuild(out: Path, rootListing: seq<DirEntry>, shadersListing: seq<DirEntry>,
                             worlds: seq<WorldFolder>, w: WorldFolder, entry: string, listing: seq<string>)
    requires forall x :: x in worlds ==> x.Valid()
    requires w in worlds && FilesAssigned(w, listing)
    requires IsComponent(w.worldDir) && '/' !in w.worldDir && StartsWith(w.worldDir, "world")
    requires DirEntry(w.worldDir, Directory) in shadersListing
    requires IsComponent(entry) && '/' !in entry
    requires entry in listing && IsShaderFile(entry)
    ensures var key := Key(w.worldDir, entry);
      var dest := out + ["shaders"];
      var r := OnModified(dest, worlds, FsEvent(FileModified, PathString(key)));
      && r.WorldCopies?
      && key in w.files
      && WorldAttempt(w.worldDir, Success(CopyFile(key, dest + [w.worldDir, w.files[key]]))) in r.attempts
      && CopyFile(key, dest + [w.worldDir, w.files[key]]) in Transform(out, rootListing, shadersListing, worlds)
  {
    var key := Key(w.worldDir, entry);
    var dest := out + ["shaders"];
    assert Contains(w.worldDir, "world");
    WorldEditAgreesWithBuild(dest, worlds, w, entry, listing);
    FolderCopyInBuild(out, rootListing, shadersListing, worlds, w, CopyFile(key, dest + [w.worldDir, w.files[key]]));
  }

  /** Every copy `copy_folder` makes for a listed `world*` directory is an action of the full build. */
  lemma FolderCopyInBuild(out: Path, rootListing: seq<DirEntry>, shadersListing: seq<DirEntry>,
                          worlds: seq<WorldFolder>, w: WorldFolder, a: Action)
    requires forall x :: x in worlds ==> x.Valid()
    requires w in worlds && StartsWith(w.worldDir, "world")
    requires DirEntry(w.worldDir, Directory) in shadersListing
    requires a in CopyFolder(out + ["shaders"], w)
    ensures a in Transform(out, rootListing, shadersListing, worlds)
  {
    var e := DirEntry(w.worldDir, Directory);
    WorldEntryActions(out + ["shaders"], worlds, w, a);
    EntryActionInBuild(out, rootListing, shadersListing, worlds, e, a);
  }

  /** A `world*` entry's actions include every copy `copy_folder` makes for a world of that name. */
  lemma WorldEntryActions(dest: Path, worlds: seq<WorldFolder>, w: WorldFolder, a: Action)
    requires forall x :: x in worlds ==> x.Valid()
    requires w in worlds && StartsWith(w.worldDir, "world")
    requires a in CopyFolder(dest, w)
    ensures a in ShaderEntryActions(dest, DirEntry(w.worldDir, Directory), worlds)
  {
    WorldCopiesMember(dest, w.worldDir, worlds, w, a);
    assert ShaderEntryActions(dest, DirEntry(w.worldDir, Directory), worlds)
      == Transformer.WorldCopies(dest, w.worldDir, worlds);
  }

  /** An action of a listed entry of `./shaders` is an action of the full build. */
  lemma EntryActionInBuild(out: Path, rootListing: seq<DirEntry>, shadersListing: seq<DirEntry>,
                           worlds: seq<WorldFolder>, e: DirEntry, a: Action)
    requires forall x :: x in worlds ==> x.Valid()
    requires e in shadersListing && a in ShaderEntryActions(out + ["shaders"], e, worlds)
    ensures a in Transform(out, rootListing, shadersListing, worlds)
  {
    var shaders := ShaderActions(out + ["shaders"], shadersListing, worlds);
    assert a in shaders;
    assert Transform(out, rootListing, shadersListing, worlds)
      == RootActions(out, rootListing) + [MakeDirs(out + ["shaders"])] + shaders;
  }

  /**
   * The handler and the full build pick world directories differently:
   * the handler by the substring "world" plus a path component, the build
   * by the prefix "world". A configured world such as `myworld` is
   * therefore copied through `copy_folder` by the handler, while the full
   * build copies the directory verbatim (`VerbatimWorldBuild`), and the
   * handler's copy is not among the build's actions.
   */
  lemma WorldEditOutsideFullBuild(out: Path, worlds: seq<WorldFolder>, w: WorldFolder, entry: string, listing: seq<string>)
    requires forall x :: x in worlds ==> x.Valid()
    requires w in worlds && FilesAssigned(w, listing)
    requires IsComponent(w.worldDir) && '/' !in w.worldDir
    requires Contains(w.worldDir, "world") && !StartsWith(w.worldDir, "world")
    requires IsComponent(entry) && '/' !in entry
    requires entry in listing && IsShaderFile(entry)
    ensures var key := Key(w.worldDir, entry);
      var dest := out + ["shaders"];
      var r := OnModified(dest, worlds, FsEvent(FileModified, PathString(key)));
      && r.WorldCopies?
      && key in w.files
      && WorldAttempt(w.worldDir, Success(CopyFile(key, dest + [w.worldDir, w.files[key]]))) in r.attempts
      && CopyFile(key, dest + [w.worldDir, w.files[key]]) !in Transform(out, [], [DirEntry(w.worldDir, Directory)], worlds)
  {
    var key := Key(w.worldDir, entry);
    WorldEditAgreesWithBuild(out + ["shaders"], worlds, w, entry, listing);
    NoFileCopyInVerbatimBuild(out, worlds, w.worldDir, key, out + ["shaders"] + [w.worldDir, w.files[key]]);
  }

  /** The verbatim build of such a directory copies no single file. */
  lemma NoFileCopyInVerbatimBuild(out: Path, worlds: seq<WorldFolder>, name: string, src: Path, dst: Path)
    requires forall x :: x in worlds ==> x.Valid()
    requires !StartsWith(name, "world")
    ensures CopyFile(src, dst) !in Transform(out, [], [DirEntry(name, Directory)], worlds)
  {
    VerbatimWorldBuild(out, worlds, name);
  }

  /** The full build copies a directory not starting with "world" verbatim, even a configured world's. */
  lemma VerbatimWorldBuild(out: Path, worlds: seq<WorldFolder>, name: string)
    requires forall x :: x in worlds ==> x.Valid()
    requires !StartsWith(name, "world")
    ensures Transform(out, [], [DirEntry(name, Directory)], worlds)
      == [MakeDirs(out + ["shaders"]), CopyTree(["shaders", name], out + ["shaders"] + [name])]
  {
    var dest := out + ["shaders"];
    var e := DirEntry(name, Directory);
    var copy := CopyTree(["shaders", name], dest + [name]);
    assert ShaderEntryActions(dest, e, worlds) == [copy];
    assert ShaderActions(dest, [e], worlds) == [copy] by {
      assert [e][1..] == [];
      assert ShaderActions(dest, [], worlds) == [];
    }
    assert RootActions(out, []) == [];
    assert Transform(out, [], [e], worlds) == [] + [MakeDirs(dest)] + [copy];
  }

  /** `myworld` is such a directory name. */
  lemma MyWorldName()
    ensures IsComponent("myworld") && '/' !in "myworld"
    ensures Contains("myworld", "world") && !StartsWith("myworld", "world")
  {
    assert "myworld"[..5] != "world" by { assert "myworld"[..5][0] == 'm'; }
    assert "myworld"[2..][..5] == "world";
    assert Contains("myworld"[2..], "world");
    assert Contains("myworld"[1..], "world");
  }

  /**
   * Editing `shaders/shaders.properties` rewrites the whole file to the
   * place the full build wrote it, even though the handler's destination
   * is the build's `shaders` directory.
   */
  lemma PropertiesEditAgreesWithBuild(buildDest: Path, worlds: seq<WorldFolder>, src: string)
    requires Parts(src) == ["shaders", "shaders.properties"] && 'w' !in src
    ensures OnModified(buildDest + ["shaders"], worlds, FsEvent(FileModified, src))
      == PropertiesRewrite(RewriteProperties(["shaders", "shaders.properties"], buildDest + ["shaders", "shaders.properties"]))
  {
    AbsentChar(src, "world", 'w');
    assert buildDest + ["shaders"] + ["shaders.properties"] == buildDest + ["shaders", "shaders.properties"];
  }

  /**
   * Any modified file named `shaders.properties` whose path does not
   * mention "world" — at any depth, say `shaders/lib/shaders.properties` —
   * is treated as the properties file: it is read, rewritten and written
   * over `dest/shaders.properties`.
   */
  lemma AnyPropertiesNameRewrites(dest: Path, worlds: seq<WorldFolder>, src: string)
    requires !Contains(src, "world") && Name(Parts(src)) == "shaders.properties"
    ensures OnModified(dest, worlds, FsEvent(FileModified, src))
      == PropertiesRewrite(RewriteProperties(Parts(src), dest + ["shaders.properties"]))
  {
  }

  /** `shaders/lib/shaders.properties` is such a path, other than the top-level one. */
  lemma NestedPropertiesPath()
    ensures var src := "shaders" + "/" + "lib" + "/" + "shaders.properties";
      && Parts(src) == ["shaders", "lib", "shaders.properties"]
      && Name(Parts(src)) == "shaders.properties" && 'w' !in src
  {
    ThreeComponentPath("shaders", "lib", "shaders.properties", 'w');
  }

  /** `a/b/c` has the parts `a`, `b`, `c`, and a character absent from all three is absent from it. */
  lemma ThreeComponentPath(a: string, b: string, c: string, x: char)
    requires IsComponent(a) && '/' !in a && IsComponent(b) && '/' !in b && IsComponent(c) && '/' !in c
    requires x != '/' && x !in a && x !in b && x !in c
    ensures Parts(a + "/" + b + "/" + c) == [a, b, c] && x !in a + "/" + b + "/" + c
  {
    var key := [a, b, c];
    PartsOfPathString(key);
    assert PathString(key) == a + "/" + b + "/" + c by {
      JoinThree(key, '/');
    }
  }

  /** The plain spelling `shaders/shaders.properties` is such a path. */
  lemma PropertiesPathString()
    ensures var src := "shaders" + "/" + "shaders.properties";
      Parts(src) == ["shaders", "shaders.properties"] && 'w' !in src
  {
    TwoComponentPath("shaders", "shaders.properties", 'w');
  }

  /** `a/b` has the parts `a`, `b`, and a character absent from both is absent from it. */
  lemma TwoComponentPath(a: string, b: string, c: char)
    requires IsComponent(a) && '/' !in a && IsComponent(b) && '/' !in b
    requires c != '/' && c !in a && c !in b
    ensures Parts(a + "/" + b) == [a, b] && c !in a + "/" + b
  {
    PartsOfPathString([a, b]);
    assert PathString([a, b]) == a + "/" + b by {
      assert [a, b][1..] == [b];
      assert Join([b], '/') == b;
      assert Join([a, b], '/') == a + ['/'] + b;
    }
  }

  /**
   * The last branch: a modified path that neither mentions "world" nor
   * names `shaders.properties` escapes the handler exactly when it is not
   * under `./shaders`, and is otherwise copied to its relative place.
   */
  lemma OtherPathOutcome(dest: Path, worlds: seq<WorldFolder>, src: string)
    requires !Contains(src, "world") && Name(Parts(src)) != "shaders.properties"
    ensures var r := OnModified(dest, worlds, FsEvent(FileModified, src));
      && (r.Raised? <==> RelativeTo(Parts(src), SourceRoot).None?)
      && (r.Raised? ==> r.error == NotUnderShaders(Parts(src)))
      && (!r.Raised? ==> r == RelativeCopy(CopyFile(Parts(src), dest + Parts(src)[1..])))
  {
  }

  /**
   * Any other modified file under `./shaders` is copied to the same
   * relative place under the destination.
   */
  lemma PassThroughEdit(dest: Path, worlds: seq<WorldFolder>, rel: Path)
    requires |rel| >= 1
    requires forall k :: 0 <= k < |rel| ==> IsComponent(rel[k]) && '/' !in rel[k]
    requires !Contains(PathString(SourceRoot + rel), "world")
    requires rel[|rel| - 1] != "shaders.properties"
    ensures OnModified(dest, worlds, FsEvent(FileModified, PathString(SourceRoot + rel)))
      == RelativeCopy(CopyFile(SourceRoot + rel, dest + rel))
  {
    PartsOfPathString(SourceRoot + rel);
    assert (SourceRoot + rel)[..1] == SourceRoot;
  }
}
