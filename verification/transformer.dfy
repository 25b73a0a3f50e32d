/**
 * The full build and the properties rewrite. Filesystem effects are
 * returned as a list of abstract actions; directory listings are inputs,
 * in the order the filesystem yields them.
 */
module Transformer {
  import opened Wrappers
  import opened Strings
  import opened Paths
  import opened RenderPasses

  /** A filesystem effect of the build. */
  datatype Action =
    | MakeDirs(dir: Path)                      // mkdir(parents=True, exist_ok=True) when absent
    | CopyFile(src: Path, dst: Path)           // shutil.copyfile
    | CopyTree(src: Path, dst: Path)           // shutil.copytree(dirs_exist_ok=True)
    | RewriteProperties(src: Path, dst: Path)  // transform_shaders_properties, writing dst

  // ---------------------------------------------------------------------
  // The line rewrite of transform_shaders_properties
  // ---------------------------------------------------------------------

  /** The text `world_dir + "/" + name` that a pass's substitution looks for. */
  function PassPattern(worldDir: string, p: RenderPass): string {
    worldDir + "/" + p.name
  }

  /** The inner loop over one pass list: replace-all of `world_dir/name` by `world_dir/allocated_name`, in list order. */
  function ApplyPasses(line: string, worldDir: string, passes: seq<RenderPass>): string
    decreases |passes|
  {
    if |passes| == 0 then line
    else ApplyPasses(ReplaceAll(line, PassPattern(worldDir, passes[0]), worldDir + "/" + passes[0].allocatedName),
      worldDir, passes[1..])
  }

  /** The loop body for one line: over worlds in order, deferred passes then composite passes. */
  function ProcessLine(line: string, worlds: seq<WorldFolder>): string
    decreases |worlds|
  {
    if |worlds| == 0 then line
    else
      var w := worlds[0];
      ProcessLine(ApplyPasses(ApplyPasses(line, w.worldDir, w.deferredPasses), w.worldDir, w.compositePasses), worlds[1..])
  }

  /** One literal replace-all step. */
  datatype Substitution = Substitution(from: string, to: string)

  function PassSubstitution(worldDir: string, p: RenderPass): Substitution {
    Substitution(PassPattern(worldDir, p), worldDir + "/" + p.allocatedName)
  }

  /** The substitutions of one pass list, in list order. */
  function PassSubstitutions(worldDir: string, passes: seq<RenderPass>): (subs: seq<Substitution>)
    ensures |subs| == |passes|
    ensures forall k :: 0 <= k < |passes| ==> subs[k] == PassSubstitution(worldDir, passes[k])
  {
    if |passes| == 0 then [] else [PassSubstitution(worldDir, passes[0])] + PassSubstitutions(worldDir, passes[1..])
  }

  /** Applies replace-all steps one after the other, each to the result of the previous one. */
  function ApplyAll(line: string, subs: seq<Substitution>): string
    decreases |subs|
  {
    if |subs| == 0 then line else ApplyAll(ReplaceAll(line, subs[0].from, subs[0].to), subs[1..])
  }

  /** The substitutions of all worlds in application order: world by world, deferred before composite. */
  function Substitutions(worlds: seq<WorldFolder>): seq<Substitution>
    decreases |worlds|
  {
    if |worlds| == 0 then []
    else
      var w := worlds[0];
      PassSubstitutions(w.worldDir, w.deferredPasses) + PassSubstitutions(w.worldDir, w.compositePasses)
      + Substitutions(worlds[1..])
  }

  /** Applying a list of substitutions is applying its first part, then its second part to that result. */
  lemma {:induction false} ApplyAllAppend(line: string, a: seq<Substitution>, b: seq<Substitution>)
    ensures ApplyAll(line, a + b) == ApplyAll(ApplyAll(line, a), b)
    decreases |a|
  {
    if |a| == 0 {
      assert a + b == b;
    } else {
      assert (a + b)[0] == a[0];
      assert (a + b)[1..] == a[1..] + b;
      ApplyAllAppend(ReplaceAll(line, a[0].from, a[0].to), a[1..], b);
    }
  }

  lemma {:induction false} ApplyPassesSequential(line: string, worldDir: string, passes: seq<RenderPass>)
    ensures ApplyPasses(line, worldDir, passes) == ApplyAll(line, PassSubstitutions(worldDir, passes))
    decreases |passes|
  {
    if |passes| > 0 {
      var next := ReplaceAll(line, PassPattern(worldDir, passes[0]), worldDir + "/" + passes[0].allocatedName);
      ApplyPassesSequential(next, worldDir, passes[1..]);
    }
  }

  /**
   * The nested loops rewrite a line exactly as the flat list of
   * substitutions applied one after the other: the rewrite is cumulative,
   * each step seeing the output of all earlier steps, not simultaneous.
   */
  lemma {:induction false} ProcessLineSequential(line: string, worlds: seq<WorldFolder>)
    ensures ProcessLine(line, worlds) == ApplyAll(line, Substitutions(worlds))
    decreases |worlds|
  {
    if |worlds| > 0 {
      var w := worlds[0];
      var d := PassSubstitutions(w.worldDir, w.deferredPasses);
      var c := PassSubstitutions(w.worldDir, w.compositePasses);
      var afterD := ApplyPasses(line, w.worldDir, w.deferredPasses);
      var afterC := ApplyPasses(afterD, w.worldDir, w.compositePasses);
      ApplyPassesSequential(line, w.worldDir, w.deferredPasses);
      ApplyPassesSequential(afterD, w.worldDir, w.compositePasses);
      ProcessLineSequential(afterC, worlds[1..]);
      ApplyAllAppend(line, d, c);
      ApplyAllAppend(line, d + c, Substitutions(worlds[1..]));
    }
  }

  /** True when no configured `world_dir/name` text of the given worlds occurs in `line`. */
  ghost predicate MentionsNoPass(line: string, worlds: seq<WorldFolder>) {
    forall i, p :: 0 <= i < |worlds| && (p in worlds[i].deferredPasses || p in worlds[i].compositePasses) ==>
      !Contains(line, PassPattern(worlds[i].worldDir, p))
  }

  lemma {:induction false} ApplyPassesAbsent(line: string, worldDir: string, passes: seq<RenderPass>)
    requires forall p :: p in passes ==> !Contains(line, PassPattern(worldDir, p))
    ensures ApplyPasses(line, worldDir, passes) == line
    decreases |passes|
  {
    if |passes| > 0 {
      ReplaceAbsent(line, PassPattern(worldDir, passes[0]), worldDir + "/" + passes[0].allocatedName);
      assert forall p :: p in passes[1..] ==> p in passes;
      ApplyPassesAbsent(line, worldDir, passes[1..]);
    }
  }

  /** Running two pass lists one after the other is running their concatenation. */
  lemma {:induction false} ApplyPassesAppend(line: string, worldDir: string, a: seq<RenderPass>, b: seq<RenderPass>)
    ensures ApplyPasses(line, worldDir, a + b) == ApplyPasses(ApplyPasses(line, worldDir, a), worldDir, b)
    decreases |a|
  {
    if |a| == 0 {
      assert a + b == b;
    } else {
      assert (a + b)[0] == a[0] && (a + b)[1..] == a[1..] + b;
      ApplyPassesAppend(ReplaceAll(line, PassPattern(worldDir, a[0]), worldDir + "/" + a[0].allocatedName), worldDir, a[1..], b);
    }
  }

  /** A line that mentions no configured `world_dir/name` comes out unchanged. */
  lemma {:induction false} ProcessLineAbsent(line: string, worlds: seq<WorldFolder>)
    requires MentionsNoPass(line, worlds)
    ensures ProcessLine(line, worlds) == line
    decreases |worlds|
  {
    if |worlds| > 0 {
      var w := worlds[0];
      assert forall p :: p in w.deferredPasses ==> !Contains(line, PassPattern(w.worldDir, p)) by {
        forall p | p in w.deferredPasses ensures !Contains(line, PassPattern(w.worldDir, p)) {
          assert 0 < |worlds| && worlds[0] == w;
        }
      }
      assert forall p :: p in w.compositePasses ==> !Contains(line, PassPattern(w.worldDir, p)) by {
        forall p | p in w.compositePasses ensures !Contains(line, PassPattern(w.worldDir, p)) {
          assert 0 < |worlds| && worlds[0] == w;
        }
      }
      ApplyPassesAbsent(line, w.worldDir, w.deferredPasses);
      ApplyPassesAbsent(line, w.worldDir, w.compositePasses);
      assert MentionsNoPass(line, worlds[1..]) by {
        forall i, p | 0 <= i < |worlds[1..]| && (p in worlds[1..][i].deferredPasses || p in worlds[1..][i].compositePasses)
          ensures !Contains(line, PassPattern(worlds[1..][i].worldDir, p))
        {
          assert worlds[1..][i] == worlds[i + 1];
        }
      }
      ProcessLineAbsent(line, worlds[1..]);
    }
  }

  // ---------------------------------------------------------------------
  // readlines / writelines
  // ---------------------------------------------------------------------

  /** Lines as `readlines` cuts them: non-empty, "\n" only as the last character, and every line but the last ends in "\n". */
  predicate LinesShaped(lines: seq<string>) {
    && (forall k :: 0 <= k < |lines| ==> |lines[k]| > 0 && '\n' !in lines[k][..|lines[k]| - 1])
    && (forall k :: 0 <= k < |lines| - 1 ==> lines[k][|lines[k]| - 1] == '\n')
  }

  /** `f.readlines()` on decoded text: the lines, each keeping its terminating "\n". */
  function ReadLines(text: string): (lines: seq<string>)
    ensures Concat(lines) == text
    ensures LinesShaped(lines)
    decreases |text|
  {
    if |text| == 0 then []
    else
      var rest := ReadLines(text[1..]);
      assert text == [text[0]] + text[1..];
      if text[0] == '\n' || |rest| == 0 then
        StartLine(text[0], rest);
        [[text[0]]] + rest
      else
        ExtendLine(text[0], rest);
        [[text[0]] + rest[0]] + rest[1..]
  }

  /** A newline, or the last character, is a line of its own in front of the others. */
  lemma StartLine(c: char, rest: seq<string>)
    requires LinesShaped(rest) && (c == '\n' || |rest| == 0)
    ensures LinesShaped([[c]] + rest) && Concat([[c]] + rest) == [c] + Concat(rest)
  {
    assert ([[c]] + rest)[1..] == rest;
  }

  /** Any other character joins the line that follows it. */
  lemma ExtendLine(c: char, rest: seq<string>)
    requires LinesShaped(rest) && c != '\n' && |rest| > 0
    ensures LinesShaped([[c] + rest[0]] + rest[1..]) && Concat([[c] + rest[0]] + rest[1..]) == [c] + Concat(rest)
  {
    var first := [c] + rest[0];
    var lines := [first] + rest[1..];
    assert Concat(lines) == [c] + Concat(rest) by {
      assert lines[1..] == rest[1..];
      assert Concat(rest) == rest[0] + Concat(rest[1..]);
      assert [c] + (rest[0] + Concat(rest[1..])) == first + Concat(rest[1..]);
    }
    ExtendShaped(c, rest, first, lines);
  }

  lemma ExtendShaped(c: char, rest: seq<string>, first: string, lines: seq<string>)
    requires LinesShaped(rest) && c != '\n' && |rest| > 0
    requires first == [c] + rest[0] && lines == [first] + rest[1..]
    ensures LinesShaped(lines)
  {
    assert first[..|first| - 1] == [c] + rest[0][..|rest[0]| - 1];
    assert first[|first| - 1] == rest[0][|rest[0]| - 1];
    assert forall k :: 1 <= k < |lines| ==> lines[k] == rest[k];
  }



  /** `f.writelines(lines)`: the lines written back to back. */
  function Concat(lines: seq<string>): string {
    if |lines| == 0 then "" else lines[0] + Concat(lines[1..])
  }

  /** The loop of transform_shaders_properties: one output line per input line, in the same order. */
  function ProcessLines(lines: seq<string>, worlds: seq<WorldFolder>): (out: seq<string>)
    ensures |out| == |lines|
    ensures forall k :: 0 <= k < |lines| ==> out[k] == ProcessLine(lines[k], worlds)
  {
    if |lines| == 0 then []
    else ProcessLines(lines[..|lines| - 1], worlds) + [ProcessLine(lines[|lines| - 1], worlds)]
  }

  /** The text `transform_shaders_properties` writes for the given source text. */
  function TransformPropertiesText(text: string, worlds: seq<WorldFolder>): string {
    Concat(ProcessLines(ReadLines(text), worlds))
  }

  lemma {:induction false} ConcatUnchanged(lines: seq<string>, worlds: seq<WorldFolder>)
    requires forall k :: 0 <= k < |lines| ==> ProcessLine(lines[k], worlds) == lines[k]
    ensures Concat(ProcessLines(lines, worlds)) == Concat(lines)
  {
    assert ProcessLines(lines, worlds) == lines;
  }

  lemma {:induction false} ContainsInConcat(lines: seq<string>, k: nat, p: string)
    requires k < |lines| && Contains(lines[k], p)
    ensures Contains(Concat(lines), p)
    decreases k
  {
    if k == 0 {
      ContainsInPrefix(lines[0], Concat(lines[1..]), p);
    } else {
      ContainsInConcat(lines[1..], k - 1, p);
      ContainsInSuffix(lines[0], Concat(lines[1..]), p);
    }
  }

  /** A properties text that mentions no configured `world_dir/name` is written back unchanged. */
  lemma TransformPropertiesUnchanged(text: string, worlds: seq<WorldFolder>)
    requires MentionsNoPass(text, worlds)
    ensures TransformPropertiesText(text, worlds) == text
  {
    var lines := ReadLines(text);
    forall k | 0 <= k < |lines|
      ensures ProcessLine(lines[k], worlds) == lines[k]
    {
      forall i, p | 0 <= i < |worlds| && (p in worlds[i].deferredPasses || p in worlds[i].compositePasses)
        ensures !Contains(lines[k], PassPattern(worlds[i].worldDir, p))
      {
        if Contains(lines[k], PassPattern(worlds[i].worldDir, p)) {
          ContainsInConcat(lines, k, PassPattern(worlds[i].worldDir, p));
        }
      }
      ProcessLineAbsent(lines[k], worlds);
    }
    ConcatUnchanged(lines, worlds);
  }

  // ---------------------------------------------------------------------
  // copy_to_dest and copy_folder
  // ---------------------------------------------------------------------

  /** The `KeyError` of `world_folder.files[src_file]`. */
  datatype CopyError = MissingKey(key: Path)

  /** `copy_to_dest`: copies to `dest / files[src]`; there is no fallback for a file absent from `files`. */
  function CopyToDest(src: Path, destDir: Path, w: WorldFolder): (r: Result<Action, CopyError>)
    ensures r.Failure? <==> src !in w.files
    ensures r.Success? ==> r.value == CopyFile(src, destDir + [w.files[src]])
  {
    if src in w.files then Success(CopyFile(src, destDir + [w.files[src]])) else Failure(MissingKey(src))
  }

  function CopyKeys(destDir: Path, w: WorldFolder, keys: seq<Path>): (r: seq<Action>)
    requires forall k :: k in keys ==> k in w.files
    ensures |r| == |keys|
    ensures forall i :: 0 <= i < |keys| ==> r[i] == CopyFile(keys[i], destDir + [w.files[keys[i]]])
  {
    if |keys| == 0 then []
    else
      var first := CopyToDest(keys[0], destDir, w);
      [first.value] + CopyKeys(destDir, w, keys[1..])
  }

  /**
   * `copy_folder`: create `dest/world_dir`, then one copy per key of
   * `files`, in insertion order, each to `dest/world_dir/files[key]`.
   */
  function CopyFolder(dest: Path, w: WorldFolder): (r: seq<Action>)
    requires w.Valid()
    ensures |r| == |w.fileOrder| + 1
    ensures r[0] == MakeDirs(dest + [w.worldDir])
    ensures forall i :: 0 <= i < |w.fileOrder| ==>
      r[i + 1] == CopyFile(w.fileOrder[i], dest + [w.worldDir, w.files[w.fileOrder[i]]])
    ensures forall a :: a in r[1..] ==> a.CopyFile? && a.src in w.files && a.dst == dest + [w.worldDir, w.files[a.src]]
    ensures forall p :: p in w.files ==> CopyFile(p, dest + [w.worldDir, w.files[p]]) in r
  {
    var destDir := dest + [w.worldDir];
    var copies := CopyKeys(destDir, w, w.fileOrder);
    CopiesCoverFiles(dest, w, copies);
    assert ([MakeDirs(destDir)] + copies)[1..] == copies;
    [MakeDirs(destDir)] + copies
  }

  /** One copy per key of `files`, in `fileOrder`, copies every file of the world and nothing else. */
  lemma CopiesCoverFiles(dest: Path, w: WorldFolder, copies: seq<Action>)
    requires w.Valid()
    requires |copies| == |w.fileOrder|
    requires forall i :: 0 <= i < |w.fileOrder| ==>
      copies[i] == CopyFile(w.fileOrder[i], dest + [w.worldDir] + [w.files[w.fileOrder[i]]])
    ensures forall i :: 0 <= i < |w.fileOrder| ==>
      copies[i] == CopyFile(w.fileOrder[i], dest + [w.worldDir, w.files[w.fileOrder[i]]])
    ensures forall a :: a in copies ==> a.CopyFile? && a.src in w.files && a.dst == dest + [w.worldDir, w.files[a.src]]
    ensures forall p :: p in w.files ==> CopyFile(p, dest + [w.worldDir, w.files[p]]) in copies
  {
    forall i | 0 <= i < |w.fileOrder|
      ensures copies[i] == CopyFile(w.fileOrder[i], dest + [w.worldDir, w.files[w.fileOrder[i]]])
    {
      assert dest + [w.worldDir] + [w.files[w.fileOrder[i]]] == dest + [w.worldDir, w.files[w.fileOrder[i]]];
    }
    forall a | a in copies
      ensures a.CopyFile? && a.src in w.files && a.dst == dest + [w.worldDir, w.files[a.src]]
    {
      var i :| 0 <= i < |copies| && copies[i] == a;
      assert dest + [w.worldDir] + [w.files[a.src]] == dest + [w.worldDir, w.files[a.src]];
    }
    forall p | p in w.files
      ensures CopyFile(p, dest + [w.worldDir, w.files[p]]) in copies
    {
      var i :| 0 <= i < |w.fileOrder| && w.fileOrder[i] == p;
      assert dest + [w.worldDir] + [w.files[p]] == dest + [w.worldDir, w.files[p]];
      assert copies[i] == CopyFile(p, dest + [w.worldDir, w.files[p]]);
    }
  }

  // ---------------------------------------------------------------------
  // transform: the full build
  // ---------------------------------------------------------------------

  datatype EntryKind = File | Directory | Neither

  /** A directory entry as `iterdir` yields it, with what `is_file` / `is_dir` report. */
  datatype DirEntry = DirEntry(name: string, kind: EntryKind)

  const ExcludedDirs: seq<string> := ["buildsystem", "shaders", ".git", ".vscode"]

  /** The project-root rule: copy a file unless its suffix is `.py`, a directory unless it is excluded. */
  predicate RootCopied(e: DirEntry) {
    || (e.kind == File && Suffix(e.name) != ".py")
    || (e.kind == Directory && e.name !in ExcludedDirs)
  }

  function RootCopy(dest: Path, e: DirEntry): Action {
    if e.kind == File then CopyFile([e.name], dest + [e.name]) else CopyTree([e.name], dest + [e.name])
  }

  /** The first loop of `transform`, over the project root. */
  function RootActions(dest: Path, listing: seq<DirEntry>): (r: seq<Action>)
    ensures |r| <= |listing|
    ensures forall e :: e in listing && RootCopied(e) ==> RootCopy(dest, e) in r
    ensures forall a :: a in r ==> exists e :: e in listing && RootCopied(e) && a == RootCopy(dest, e)
  {
    if |listing| == 0 then []
    else
      var e := listing[0];
      var rest := RootActions(dest, listing[1..]);
      assert forall x :: x in listing[1..] ==> x in listing;
      if RootCopied(e) then [RootCopy(dest, e)] + rest else rest
  }

  /** The copies of every configured world whose directory name is `name`, in configuration order. */
  function WorldCopies(dest: Path, name: string, worlds: seq<WorldFolder>): (r: seq<Action>)
    requires forall w :: w in worlds ==> w.Valid()
    ensures forall a :: a in r <==> exists w :: w in worlds && w.worldDir == name && a in CopyFolder(dest, w)
    ensures (forall w :: w in worlds ==> w.worldDir != name) ==> r == []
  {
    if |worlds| == 0 then []
    else
      var rest := WorldCopies(dest, name, worlds[1..]);
      assert forall w :: w in worlds <==> w == worlds[0] || w in worlds[1..];
      if worlds[0].worldDir == name then CopyFolder(dest, worlds[0]) + rest else rest
  }

  /** Every copy of a world configured under `name` is among the actions for a `name` directory. */
  lemma {:induction false} WorldCopiesMember(dest: Path, name: string, worlds: seq<WorldFolder>, w: WorldFolder, a: Action)
    requires forall x :: x in worlds ==> x.Valid()
    requires w in worlds && w.worldDir == name && a in CopyFolder(dest, w)
    ensures a in WorldCopies(dest, name, worlds)
    decreases |worlds|
  {
    if worlds[0] != w {
      assert w in worlds[1..];
      WorldCopiesMember(dest, name, worlds[1..], w, a);
    }
  }

  /** The actions for one entry of `./shaders`, with `dest` the destination `shaders` directory. */
  function ShaderEntryActions(dest: Path, e: DirEntry, worlds: seq<WorldFolder>): seq<Action>
    requires forall w :: w in worlds ==> w.Valid()
  {
    match e.kind
    case File =>
      if e.name == "shaders.properties" then [RewriteProperties(["shaders", e.name], dest + ["shaders.properties"])]
      else [CopyFile(["shaders", e.name], dest + [e.name])]
    case Directory =>
      if !StartsWith(e.name, "world") then [CopyTree(["shaders", e.name], dest + [e.name])]
      else WorldCopies(dest, e.name, worlds)
    case Neither => []
  }

  /** The second loop of `transform`, over `./shaders`, in listing order. */
  function ShaderActions(dest: Path, listing: seq<DirEntry>, worlds: seq<WorldFolder>): (r: seq<Action>)
    requires forall w :: w in worlds ==> w.Valid()
    ensures forall e, a :: e in listing && a in ShaderEntryActions(dest, e, worlds) ==> a in r
    ensures forall a :: a in r ==> exists e :: e in listing && a in ShaderEntryActions(dest, e, worlds)
  {
    if |listing| == 0 then []
    else
      var rest := ShaderActions(dest, listing[1..], worlds);
      assert forall x :: x in listing <==> x == listing[0] || x in listing[1..];
      ShaderEntryActions(dest, listing[0], worlds) + rest
  }

  /** `transform(dest_path, world_folders)` over the listings of `.` and `./shaders`. */
  function Transform(dest: Path, rootListing: seq<DirEntry>, shadersListing: seq<DirEntry>, worlds: seq<WorldFolder>): seq<Action>
    requires forall w :: w in worlds ==> w.Valid()
  {
    RootActions(dest, rootListing) + [MakeDirs(dest + ["shaders"])] + ShaderActions(dest + ["shaders"], shadersListing, worlds)
  }

  /**
   * The rules for one entry of `./shaders`: `shaders.properties` is
   * rewritten, other files are copied under their name, directories not
   * starting with "world" are copied whole, and a `world*` directory is
   * projected by exactly the worlds configured with that name — so an
   * unconfigured one produces nothing.
   */
  lemma ShaderEntryRules(dest: Path, e: DirEntry, worlds: seq<WorldFolder>)
    requires forall w :: w in worlds ==> w.Valid()
    ensures e.kind == File && e.name == "shaders.properties" ==>
      ShaderEntryActions(dest, e, worlds) == [RewriteProperties(["shaders", "shaders.properties"], dest + ["shaders.properties"])]
    ensures e.kind == File && e.name != "shaders.properties" ==>
      ShaderEntryActions(dest, e, worlds) == [CopyFile(["shaders", e.name], dest + [e.name])]
    ensures e.kind == Directory && !StartsWith(e.name, "world") ==>
      ShaderEntryActions(dest, e, worlds) == [CopyTree(["shaders", e.name], dest + [e.name])]
    ensures e.kind == Directory && StartsWith(e.name, "world") ==>
      forall a :: a in ShaderEntryActions(dest, e, worlds) <==>
        exists w :: w in worlds && w.worldDir == e.name && a in CopyFolder(dest, w)
    ensures e.kind == Directory && StartsWith(e.name, "world") && (forall w :: w in worlds ==> w.worldDir != e.name) ==>
      ShaderEntryActions(dest, e, worlds) == []
    ensures e.kind == Neither ==> ShaderEntryActions(dest, e, worlds) == []
  {
  }

  /**
   * The full build: the root actions, then `dest/shaders` is created,
   * then the shader actions; the properties file is rewritten iff
   * `./shaders` lists it as a file.
   */
  lemma TransformSpec(dest: Path, rootListing: seq<DirEntry>, shadersListing: seq<DirEntry>, worlds: seq<WorldFolder>)
    requires forall w :: w in worlds ==> w.Valid()
    ensures var r := Transform(dest, rootListing, shadersListing, worlds);
      var rewrite := RewriteProperties(["shaders", "shaders.properties"], dest + ["shaders", "shaders.properties"]);
      && r[|RootActions(dest, rootListing)|] == MakeDirs(dest + ["shaders"])
      && (rewrite in r <==> DirEntry("shaders.properties", File) in shadersListing)
  {
    var root := RootActions(dest, rootListing);
    var shaders := ShaderActions(dest + ["shaders"], shadersListing, worlds);
    var r := Transform(dest, rootListing, shadersListing, worlds);
    var rewrite := RewriteProperties(["shaders", "shaders.properties"], dest + ["shaders", "shaders.properties"]);
    assert dest + ["shaders"] + ["shaders.properties"] == dest + ["shaders", "shaders.properties"];
    var pe := DirEntry("shaders.properties", File);
    if pe in shadersListing {
      ShaderEntryRules(dest + ["shaders"], pe, worlds);
      assert rewrite in ShaderEntryActions(dest + ["shaders"], pe, worlds);
    }
    if rewrite in r {
      assert rewrite !in root;
      assert rewrite in shaders;
      var e :| e in shadersListing && rewrite in ShaderEntryActions(dest + ["shaders"], e, worlds);
      ShaderEntryRules(dest + ["shaders"], e, worlds);
      assert e == pe;
    }
  }
}
