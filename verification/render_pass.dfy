/**
 * Slot allocation for one world directory: every configured logical pass
 * name gets a renderer slot name ("deferred", "deferred1", ..., "composite",
 * "composite1", ...), and every shader file of the world directory is
 * assigned a destination name, either its pass's slot name plus a stage
 * suffix or, when its name matches no pass, its own name.
 */
module RenderPasses {
  import opened Wrappers
  import opened Strings
  import opened Paths

  // ---------------------------------------------------------------------
  // Slot names
  // ---------------------------------------------------------------------

  datatype Category = Deferred | Composite

  function Prefix(c: Category): string {
    match c
    case Deferred => "deferred"
    case Composite => "composite"
  }

  /** `helper_f`: position 0 gets no number, later positions their decimal form. */
  function IndexTag(i: nat): string {
    if i == 0 then "" else Decimal(i)
  }

  /** The allocated name of the pass at position `i` of category `c`. */
  function SlotName(c: Category, i: nat): string {
    Prefix(c) + IndexTag(i)
  }

  /** A stage suffix as the scan produces it: non-empty and starting with "." or "_", never with a digit. */
  predicate IsStageSuffix(s: string) {
    |s| > 0 && (s[0] == '.' || s[0] == '_')
  }

  /**
   * A slot name followed by a stage suffix determines both: the category
   * by its first letter, the position by the digits that follow, and the
   * suffix as the rest.
   */
  lemma SlotNameWithSuffixInjective(c1: Category, i1: nat, s1: string, c2: Category, i2: nat, s2: string)
    requires IsStageSuffix(s1) && IsStageSuffix(s2)
    requires SlotName(c1, i1) + s1 == SlotName(c2, i2) + s2
    ensures c1 == c2 && i1 == i2 && s1 == s2
  {
    var a := SlotName(c1, i1) + s1;
    var b := SlotName(c2, i2) + s2;
    assert a[0] == Prefix(c1)[0] && b[0] == Prefix(c2)[0];
    assert c1 == c2;
    var p := Prefix(c1);
    assert a == p + (IndexTag(i1) + s1);
    assert b == p + (IndexTag(i2) + s2);
    assert IndexTag(i1) + s1 == a[|p|..] == b[|p|..] == IndexTag(i2) + s2;
    DigitsThenMark(IndexTag(i1), s1, IndexTag(i2), s2);
    if i1 != 0 && i2 != 0 {
      DecimalInjective(i1, i2);
    }
  }

  /** Slot names are pairwise distinct within a category, and deferred names never equal composite names. */
  lemma SlotNamesDistinct(c1: Category, i1: nat, c2: Category, i2: nat)
    requires c1 != c2 || i1 != i2
    ensures SlotName(c1, i1) != SlotName(c2, i2)
  {
    if SlotName(c1, i1) == SlotName(c2, i2) {
      SlotNameWithSuffixInjective(c1, i1, ".", c2, i2, ".");
    }
  }

  // ---------------------------------------------------------------------
  // Passes and the world folder
  // ---------------------------------------------------------------------

  /** `RenderPass`: a logical name, its slot name, and the shader files recorded for it. */
  datatype RenderPass = RenderPass(name: string, allocatedName: string, shaders: map<Path, string>)

  /** A reference to a pass object: its category list and its position there. */
  datatype PassRef = PassRef(cat: Category, index: nat)

  /**
   * `WorldFolder`: the two pass lists, `map_name_to_pass`, and `files`,
   * whose insertion order (the order `copy_folder` visits it) is `fileOrder`.
   */
  datatype WorldFolder = WorldFolder(
    worldDir: string,
    deferredPasses: seq<RenderPass>,
    compositePasses: seq<RenderPass>,
    nameToPass: map<string, PassRef>,
    files: map<Path, string>,
    fileOrder: seq<Path>)
  {
    function Passes(c: Category): seq<RenderPass> {
      match c
      case Deferred => deferredPasses
      case Composite => compositePasses
    }

    predicate ValidRef(r: PassRef) {
      r.index < |Passes(r.cat)|
    }

    function PassAt(r: PassRef): RenderPass
      requires ValidRef(r)
    {
      Passes(r.cat)[r.index]
    }

    /** Replaces the pass object `r` refers to. */
    function WithPass(r: PassRef, p: RenderPass): (w: WorldFolder)
      requires ValidRef(r)
      ensures w.worldDir == worldDir && w.nameToPass == nameToPass && w.files == files && w.fileOrder == fileOrder
      ensures forall c :: |w.Passes(c)| == |Passes(c)|
      ensures forall q :: ValidRef(q) ==> w.PassAt(q) == if q == r then p else PassAt(q)
    {
      match r.cat
      case Deferred => this.(deferredPasses := deferredPasses[r.index := p])
      case Composite => this.(compositePasses := compositePasses[r.index := p])
    }

    /** Every name refers to an existing pass, and `fileOrder` lists the keys of `files`, each once. */
    ghost predicate Valid() {
      && (forall n :: n in nameToPass ==> ValidRef(nameToPass[n]))
      && (forall p :: p in fileOrder <==> p in files)
      && NoDuplicates(fileOrder)
    }
  }

  predicate NoDuplicates<T(==)>(s: seq<T>) {
    forall i, j :: 0 <= i < j < |s| ==> s[i] != s[j]
  }

  /** The passes of one category, in configuration order, before any file is scanned. */
  function MakePasses(c: Category, names: seq<string>): seq<RenderPass> {
    seq(|names|, i requires 0 <= i < |names| => RenderPass(names[i], SlotName(c, i), map[]))
  }

  /** `add_shader`: records the file under the pass and returns its destination name. */
  function AddShader(p: RenderPass, shader: Path, suffix: string): (RenderPass, string) {
    var dest := p.allocatedName + suffix;
    (p.(shaders := p.shaders[shader := dest]), dest)
  }

  // ---------------------------------------------------------------------
  // map_name_to_pass
  // ---------------------------------------------------------------------

  /** Registers every name of one category list in order; a later registration overwrites an earlier one. */
  function Register(m: map<string, PassRef>, c: Category, names: seq<string>): map<string, PassRef>
  {
    if |names| == 0 then m
    else Register(m, c, names[..|names| - 1])[names[|names| - 1] := PassRef(c, |names| - 1)]
  }

  /** Registration maps each listed name to its last position in the list and leaves other names alone. */
  lemma {:induction false} RegisterLastWins(m: map<string, PassRef>, c: Category, names: seq<string>)
    ensures forall x :: x in Register(m, c, names) <==> x in m || x in names
    ensures forall x :: x in names ==> Register(m, c, names)[x] == PassRef(c, LastIndexOf(names, x))
    ensures forall x :: x in m && x !in names ==> Register(m, c, names)[x] == m[x]
  {
    if |names| > 0 {
      var init := names[..|names| - 1];
      var last := names[|names| - 1];
      RegisterLastWins(m, c, init);
      assert names == init + [last];
      forall x | x in names
        ensures Register(m, c, names)[x] == PassRef(c, LastIndexOf(names, x))
      {
        if x != last {
          assert x in init;
          assert LastIndexOf(names, x) == LastIndexOf(init, x);
        }
      }
    }
  }

  /** `map_name_to_pass`: deferred names first, then composite names. */
  function NameToPass(deferredNames: seq<string>, compositeNames: seq<string>): map<string, PassRef> {
    Register(Register(map[], Deferred, deferredNames), Composite, compositeNames)
  }

  /**
   * Every configured name is a key; a composite name refers to its last
   * composite position even when it is also a deferred name; any other
   * name refers to its last deferred position.
   */
  lemma NameToPassSpec(deferredNames: seq<string>, compositeNames: seq<string>)
    ensures forall x :: x in NameToPass(deferredNames, compositeNames) <==> x in deferredNames || x in compositeNames
    ensures forall x :: x in compositeNames ==>
      NameToPass(deferredNames, compositeNames)[x] == PassRef(Composite, LastIndexOf(compositeNames, x))
    ensures forall x :: x in deferredNames && x !in compositeNames ==>
      NameToPass(deferredNames, compositeNames)[x] == PassRef(Deferred, LastIndexOf(deferredNames, x))
  {
    RegisterLastWins(map[], Deferred, deferredNames);
    RegisterLastWins(Register(map[], Deferred, deferredNames), Composite, compositeNames);
  }

  // ---------------------------------------------------------------------
  // Shader file names
  // ---------------------------------------------------------------------

  const LegalSuffixes: seq<string> := [".csh", ".gsh", ".vsh", ".fsh"]

  /** The candidate pass name and the stage suffix read from a shader file name. */
  datatype ShaderName = ShaderName(passName: string, stageSuffix: string)

  predicate IsShaderFile(fileName: string) {
    Suffix(fileName) in LegalSuffixes
  }

  /**
   * The parsing step of the scan: `.csh` stems are split on "_" (first
   * piece = pass, second piece = workgroup tag, the rest dropped); other
   * stages use the whole stem. Files with another suffix are not shaders.
   */
  function ParseShaderName(fileName: string): (r: Option<ShaderName>)
    ensures r.Some? <==> IsShaderFile(fileName)
    ensures r.Some? ==> IsStageSuffix(r.value.stageSuffix)
  {
    var ext := Suffix(fileName);
    if ext !in LegalSuffixes then None
    else if ext == ".csh" then
      var tmp := Split(Stem(fileName), '_');
      Some(ShaderName(tmp[0], if |tmp| > 1 then "_" + tmp[1] + ext else ext))
    else Some(ShaderName(Stem(fileName), ext))
  }

  /**
   * A `.csh` name `pass_tag<rest>.csh` names pass `pass` with stage suffix
   * `_tag.csh`, whatever further "_" pieces `rest` holds.
   */
  lemma ParseComputeWithTag(pass: string, tag: string, rest: string)
    requires '_' !in pass && '_' !in tag
    requires rest == "" || rest[0] == '_'
    ensures ParseShaderName(pass + "_" + tag + rest + ".csh") == Some(ShaderName(pass, "_" + tag + ".csh"))
  {
    var stem := pass + "_" + tag + rest;
    assert Suffix(stem + ".csh") == ".csh" && Stem(stem + ".csh") == stem by {
      SuffixOfExtension(stem, ".csh");
    }
    var pieces := Split(stem, '_');
    assert |pieces| > 1 && pieces[0] == pass && pieces[1] == tag by {
      assert stem == pass + ['_'] + (tag + rest);
      SplitAtFirst(pass, '_', tag + rest);
      FirstPieceBeforeSeparator(tag, '_', rest);
    }
  }

  /** A separator-free head followed by nothing or by the separator is the first piece. */
  lemma FirstPieceBeforeSeparator(head: string, sep: char, rest: string)
    requires sep !in head
    requires rest == [] || rest[0] == sep
    ensures Split(head + rest, sep)[0] == head
  {
    if rest == [] {
      assert head + rest == head;
      SplitWithoutSeparator(head, sep);
    } else {
      assert head + rest == head + [sep] + rest[1..];
      SplitAtFirst(head, sep, rest[1..]);
    }
  }

  /** A `.csh` name without "_" names the whole stem, with stage suffix `.csh`. */
  lemma ParseComputeWithoutTag(stem: string)
    requires |stem| >= 1 && '_' !in stem
    ensures ParseShaderName(stem + ".csh") == Some(ShaderName(stem, ".csh"))
  {
    SuffixOfExtension(stem, ".csh");
    SplitWithoutSeparator(stem, '_');
  }

  /** A `.gsh`, `.vsh` or `.fsh` name names its whole stem, "_" included, with the extension as stage suffix. */
  lemma ParseOtherStage(stem: string, ext: string)
    requires |stem| >= 1
    requires ext in [".gsh", ".vsh", ".fsh"]
    ensures ParseShaderName(stem + ext) == Some(ShaderName(stem, ext))
  {
    SuffixOfExtension(stem, ext);
  }

  /** The pass a file name matches, if any. */
  function MatchedRef(nameToPass: map<string, PassRef>, fileName: string): Option<PassRef> {
    match ParseShaderName(fileName)
    case None => None
    case Some(sn) => if sn.passName in nameToPass then Some(nameToPass[sn.passName]) else None
  }

  /**
   * Where a shader file goes, stated directly: the slot name of its pass
   * plus its stage suffix, or its own name when it matches no pass.
   */
  function Destination(nameToPass: map<string, PassRef>, fileName: string): string
    requires IsShaderFile(fileName)
  {
    var sn := ParseShaderName(fileName).value;
    if sn.passName in nameToPass then
      var r := nameToPass[sn.passName];
      SlotName(r.cat, r.index) + sn.stageSuffix
    else fileName
  }

  /** A shader file whose pass is registered goes to that pass's slot name plus its stage suffix. */
  lemma MatchedDestination(m: map<string, PassRef>, fileName: string, pass: string, stageSuffix: string)
    requires ParseShaderName(fileName) == Some(ShaderName(pass, stageSuffix))
    requires pass in m
    ensures IsShaderFile(fileName)
    ensures Destination(m, fileName) == SlotName(m[pass].cat, m[pass].index) + stageSuffix
  {
  }

  /** A shader file whose pass is not registered keeps its name. */
  lemma UnmatchedDestination(m: map<string, PassRef>, fileName: string, pass: string, stageSuffix: string)
    requires ParseShaderName(fileName) == Some(ShaderName(pass, stageSuffix))
    requires pass !in m
    ensures IsShaderFile(fileName) && MatchedRef(m, fileName).None?
    ensures Destination(m, fileName) == fileName
  {
  }

  /**
   * Two files that both match a pass get the same destination iff they
   * match the same pass with the same stage suffix.
   */
  lemma MatchedDestinations(nameToPass: map<string, PassRef>, e1: string, e2: string)
    requires IsShaderFile(e1) && IsShaderFile(e2)
    requires MatchedRef(nameToPass, e1).Some? && MatchedRef(nameToPass, e2).Some?
    ensures Destination(nameToPass, e1) == Destination(nameToPass, e2) <==>
      && MatchedRef(nameToPass, e1) == MatchedRef(nameToPass, e2)
      && ParseShaderName(e1).value.stageSuffix == ParseShaderName(e2).value.stageSuffix
  {
    var r1, r2 := MatchedRef(nameToPass, e1).value, MatchedRef(nameToPass, e2).value;
    var s1, s2 := ParseShaderName(e1).value.stageSuffix, ParseShaderName(e2).value.stageSuffix;
    if Destination(nameToPass, e1) == Destination(nameToPass, e2) {
      SlotNameWithSuffixInjective(r1.cat, r1.index, s1, r2.cat, r2.index, s2);
    }
  }

  /**
   * `.csh` files of a configured pass that share the first tag but differ
   * in later "_" pieces are sent to the same destination, so one
   * overwrites the other.
   */
  lemma ComputeTagCollision(nameToPass: map<string, PassRef>, pass: string, tag: string, rest1: string, rest2: string)
    requires '_' !in pass && '_' !in tag && pass in nameToPass
    requires rest1 == "" || rest1[0] == '_'
    requires rest2 == "" || rest2[0] == '_'
    ensures var e1, e2 := pass + "_" + tag + rest1 + ".csh", pass + "_" + tag + rest2 + ".csh";
      && IsShaderFile(e1) && IsShaderFile(e2)
      && Destination(nameToPass, e1) == Destination(nameToPass, e2)
      && Destination(nameToPass, e1) == SlotName(nameToPass[pass].cat, nameToPass[pass].index) + ("_" + tag + ".csh")
  {
    ParseComputeWithTag(pass, tag, rest1);
    ParseComputeWithTag(pass, tag, rest2);
    MatchedDestination(nameToPass, pass + "_" + tag + rest1 + ".csh", pass, "_" + tag + ".csh");
    MatchedDestination(nameToPass, pass + "_" + tag + rest2 + ".csh", pass, "_" + tag + ".csh");
  }

  // ---------------------------------------------------------------------
  // The directory scan of WorldFolder.__init__
  // ---------------------------------------------------------------------

  function WorldPath(worldDir: string): Path {
    ["shaders", worldDir]
  }

  /** The `files` key of a directory entry: `Path("./shaders") / world_dir / entry`. */
  function Key(worldDir: string, entry: string): Path {
    WorldPath(worldDir) + [entry]
  }

  /** Every pass carries the slot name of its position. */
  ghost predicate SlotsAllocated(w: WorldFolder) {
    forall r :: w.ValidRef(r) ==> w.PassAt(r).allocatedName == SlotName(r.cat, r.index)
  }

  /** The scan changes only `files`, `fileOrder` and the passes' `shaders`. */
  ghost predicate SameSlots(w: WorldFolder, w': WorldFolder) {
    && w'.worldDir == w.worldDir
    && w'.nameToPass == w.nameToPass
    && (forall c :: |w'.Passes(c)| == |w.Passes(c)|)
    && (forall r :: w.ValidRef(r) ==>
          w'.PassAt(r).name == w.PassAt(r).name && w'.PassAt(r).allocatedName == w.PassAt(r).allocatedName)
  }

  /** `files[key] = value`, with `fileOrder` growing only when the key is new. */
  lemma RecordKey(w: WorldFolder, key: Path, v: string)
    requires w.Valid()
    ensures var order := if key in w.files then w.fileOrder else w.fileOrder + [key];
      w.(files := w.files[key := v], fileOrder := order).Valid()
  {
    var order := if key in w.files then w.fileOrder else w.fileOrder + [key];
    if key !in w.files {
      forall i, j | 0 <= i < j < |order|
        ensures order[i] != order[j]
      {
        if j == |w.fileOrder| {
          assert order[i] == w.fileOrder[i];
          assert w.fileOrder[i] in w.files;
        }
      }
    }
  }

  /** One iteration of the scan loop. */
  function ScanEntry(w: WorldFolder, entry: string): WorldFolder
    requires w.Valid()
  {
    match ParseShaderName(entry)
    case None => w
    case Some(sn) =>
      var key := Key(w.worldDir, entry);
      var order := if key in w.files then w.fileOrder else w.fileOrder + [key];
      if sn.passName in w.nameToPass then
        var r := w.nameToPass[sn.passName];
        var (pass, dest) := AddShader(w.PassAt(r), key, sn.stageSuffix);
        w.WithPass(r, pass).(files := w.files[key := dest], fileOrder := order)
      else
        w.(files := w.files[key := Name(key)], fileOrder := order)
  }

  /** An iteration keeps the folder valid and touches neither names nor slot names. */
  lemma ScanEntryFrame(w: WorldFolder, entry: string)
    requires w.Valid()
    ensures ScanEntry(w, entry).Valid()
    ensures SameSlots(w, ScanEntry(w, entry))
  {
    match ParseShaderName(entry)
    case None =>
    case Some(sn) =>
      var key := Key(w.worldDir, entry);
      if sn.passName in w.nameToPass {
        var r := w.nameToPass[sn.passName];
        var (pass, dest) := AddShader(w.PassAt(r), key, sn.stageSuffix);
        RecordKey(w.WithPass(r, pass), key, dest);
      } else {
        RecordKey(w, key, Name(key));
      }
  }

  /** The scan loop over a directory listing, in listing order. */
  function Scan(w: WorldFolder, listing: seq<string>): (w': WorldFolder)
    requires w.Valid()
    ensures w'.Valid()
    ensures SameSlots(w, w')
  {
    if |listing| == 0 then w
    else
      var w' := Scan(w, listing[..|listing| - 1]);
      ScanEntryFrame(w', listing[|listing| - 1]);
      ScanEntry(w', listing[|listing| - 1])
  }

  function InitialFolder(worldDir: string, deferredNames: seq<string>, compositeNames: seq<string>): (w: WorldFolder)
    ensures w.Valid()
  {
    NameToPassSpec(deferredNames, compositeNames);
    WorldFolder(worldDir, MakePasses(Deferred, deferredNames), MakePasses(Composite, compositeNames),
      NameToPass(deferredNames, compositeNames), map[], [])
  }

  /** `WorldFolder(world_dir, deferred_pass_names, composite_pass_names)` over the listing of the world directory. */
  function BuildWorldFolder(worldDir: string, deferredNames: seq<string>, compositeNames: seq<string>, listing: seq<string>): (w: WorldFolder)
    ensures w.Valid()
  {
    Scan(InitialFolder(worldDir, deferredNames, compositeNames), listing)
  }

  // ---------------------------------------------------------------------
  // What the scan computes
  // ---------------------------------------------------------------------

  /** The keys a scan of `listing` may produce. */
  predicate IsKeyOf(worldDir: string, listing: seq<string>, p: Path) {
    |p| == 3 && p[..2] == WorldPath(worldDir) && p[2] in listing && IsShaderFile(p[2])
  }

  /** The shader keys of a listing in listing order. */
  function ShaderKeys(worldDir: string, listing: seq<string>): seq<Path> {
    if |listing| == 0 then []
    else
      var last := listing[|listing| - 1];
      ShaderKeys(worldDir, listing[..|listing| - 1]) + if IsShaderFile(last) then [Key(worldDir, last)] else []
  }

  /** `files` after visiting `listing` holds only keys of listed shader files. */
  ghost predicate FilesKeyed(w: WorldFolder, listing: seq<string>) {
    forall p :: p in w.files ==> IsKeyOf(w.worldDir, listing, p)
  }

  /** `files` after visiting `listing` has an entry for every listed shader file, holding its destination. */
  ghost predicate FilesAssigned(w: WorldFolder, listing: seq<string>) {
    forall e :: e in listing && IsShaderFile(e) ==>
      Key(w.worldDir, e) in w.files && w.files[Key(w.worldDir, e)] == Destination(w.nameToPass, e)
  }

  ghost predicate FilesScanned(w: WorldFolder, listing: seq<string>) {
    FilesKeyed(w, listing) && FilesAssigned(w, listing)
  }

  /** Each pass's `shaders` holds only files that matched it, with the same destination as `files`. */
  ghost predicate ShadersSound(w: WorldFolder) {
    forall r, p :: w.ValidRef(r) && p in w.PassAt(r).shaders ==>
      p in w.files && w.PassAt(r).shaders[p] == w.files[p] && |p| == 3 && MatchedRef(w.nameToPass, p[2]) == Some(r)
  }

  /** Each pass's `shaders` holds every file of `files` that matched it. */
  ghost predicate ShadersComplete(w: WorldFolder) {
    forall r, p :: w.ValidRef(r) && p in w.files && |p| == 3 && MatchedRef(w.nameToPass, p[2]) == Some(r) ==>
      p in w.PassAt(r).shaders
  }

  ghost predicate ShadersScanned(w: WorldFolder) {
    ShadersSound(w) && ShadersComplete(w)
  }

  /** What one iteration does to `files`. */
  lemma ScanEntryFiles(w: WorldFolder, entry: string)
    requires w.Valid() && SlotsAllocated(w)
    ensures ScanEntry(w, entry).worldDir == w.worldDir && ScanEntry(w, entry).nameToPass == w.nameToPass
    ensures !IsShaderFile(entry) ==> ScanEntry(w, entry) == w
    ensures IsShaderFile(entry) ==>
      ScanEntry(w, entry).files == w.files[Key(w.worldDir, entry) := Destination(w.nameToPass, entry)]
  {
    match ParseShaderName(entry)
    case None =>
    case Some(sn) =>
      var key := Key(w.worldDir, entry);
      if sn.passName in w.nameToPass {
        var r := w.nameToPass[sn.passName];
        assert w.PassAt(r).allocatedName == SlotName(r.cat, r.index);
      } else {
        assert Name(key) == entry;
      }
  }

  /** What one iteration does to the `shaders` of the pass `q`. */
  lemma ScanEntryShaders(w: WorldFolder, entry: string, q: PassRef)
    requires w.Valid() && SlotsAllocated(w) && w.ValidRef(q)
    requires IsShaderFile(entry)
    ensures ScanEntry(w, entry).ValidRef(q)
    ensures ScanEntry(w, entry).PassAt(q).shaders ==
      if MatchedRef(w.nameToPass, entry) == Some(q)
      then w.PassAt(q).shaders[Key(w.worldDir, entry) := Destination(w.nameToPass, entry)]
      else w.PassAt(q).shaders
  {
    ScanEntryFrame(w, entry);
    var sn := ParseShaderName(entry).value;
    if sn.passName in w.nameToPass {
      var r := w.nameToPass[sn.passName];
      assert w.PassAt(r).allocatedName == SlotName(r.cat, r.index);
    }
  }

  /** The files part of one iteration, stated over its effect on `files`. */
  ghost predicate FilesEffect(w: WorldFolder, w': WorldFolder, entry: string) {
    && w'.worldDir == w.worldDir
    && w'.nameToPass == w.nameToPass
    && (!IsShaderFile(entry) ==> w'.files == w.files)
    && (IsShaderFile(entry) ==> w'.files == w.files[Key(w.worldDir, entry) := Destination(w.nameToPass, entry)])
  }

  lemma FilesKeyedStep(w: WorldFolder, w': WorldFolder, listing: seq<string>, entry: string)
    requires FilesKeyed(w, listing) && FilesEffect(w, w', entry)
    ensures FilesKeyed(w', listing + [entry])
  {
    var listing' := listing + [entry];
    forall p | p in w'.files
      ensures IsKeyOf(w.worldDir, listing', p)
    {
      if p in w.files {
        assert IsKeyOf(w.worldDir, listing, p);
      } else {
        assert p == Key(w.worldDir, entry);
      }
    }
  }

  lemma FilesAssignedStep(w: WorldFolder, w': WorldFolder, listing: seq<string>, entry: string)
    requires FilesAssigned(w, listing) && FilesEffect(w, w', entry)
    ensures FilesAssigned(w', listing + [entry])
  {
    var listing' := listing + [entry];
    var key := Key(w.worldDir, entry);
    forall e | e in listing' && IsShaderFile(e)
      ensures Key(w.worldDir, e) in w'.files && w'.files[Key(w.worldDir, e)] == Destination(w.nameToPass, e)
    {
      if e != entry {
        assert e in listing;
        assert Key(w.worldDir, e) != key by {
          assert Key(w.worldDir, e)[2] == e && key[2] == entry;
        }
      }
    }
  }

  /** The shaders part of one iteration, stated over its effect on each pass. */
  ghost predicate ShadersEffect(w: WorldFolder, w': WorldFolder, entry: string) {
    && (forall q :: w'.ValidRef(q) <==> w.ValidRef(q))
    && (!IsShaderFile(entry) ==> forall q :: w.ValidRef(q) ==> w'.PassAt(q).shaders == w.PassAt(q).shaders)
    && (IsShaderFile(entry) ==> forall q :: w.ValidRef(q) ==>
          w'.PassAt(q).shaders ==
            if MatchedRef(w.nameToPass, entry) == Some(q)
            then w.PassAt(q).shaders[Key(w.worldDir, entry) := Destination(w.nameToPass, entry)]
            else w.PassAt(q).shaders)
  }

  lemma ShadersSoundStep(w: WorldFolder, w': WorldFolder, entry: string)
    requires ShadersSound(w) && FilesEffect(w, w', entry) && ShadersEffect(w, w', entry)
    ensures ShadersSound(w')
  {
    if IsShaderFile(entry) {
      var key := Key(w.worldDir, entry);
      assert key[2] == entry && |key| == 3;
      forall q, p | w'.ValidRef(q) && p in w'.PassAt(q).shaders
        ensures p in w'.files && w'.PassAt(q).shaders[p] == w'.files[p] && |p| == 3
          && MatchedRef(w'.nameToPass, p[2]) == Some(q)
      {
        if p != key {
          assert p in w.PassAt(q).shaders;
        }
      }
    }
  }

  lemma ShadersCompleteStep(w: WorldFolder, w': WorldFolder, entry: string)
    requires ShadersComplete(w) && FilesEffect(w, w', entry) && ShadersEffect(w, w', entry)
    ensures ShadersComplete(w')
  {
    if IsShaderFile(entry) {
      var key := Key(w.worldDir, entry);
      assert key[2] == entry && |key| == 3;
      forall q, p | w'.ValidRef(q) && p in w'.files && |p| == 3 && MatchedRef(w'.nameToPass, p[2]) == Some(q)
        ensures p in w'.PassAt(q).shaders
      {
        if p != key {
          assert p in w.files;
          assert p in w.PassAt(q).shaders;
        }
      }
    }
  }

  lemma ScanEntryEffects(w: WorldFolder, entry: string)
    requires w.Valid() && SlotsAllocated(w)
    ensures FilesEffect(w, ScanEntry(w, entry), entry)
    ensures ShadersEffect(w, ScanEntry(w, entry), entry)
  {
    ScanEntryFiles(w, entry);
    ScanEntryFrame(w, entry);
    var w' := ScanEntry(w, entry);
    if IsShaderFile(entry) {
      forall q | w.ValidRef(q)
        ensures w'.PassAt(q).shaders ==
            if MatchedRef(w.nameToPass, entry) == Some(q)
            then w.PassAt(q).shaders[Key(w.worldDir, entry) := Destination(w.nameToPass, entry)]
            else w.PassAt(q).shaders
      {
        ScanEntryShaders(w, entry, q);
      }
    }
  }

  lemma OrderStep(w: WorldFolder, listing: seq<string>, entry: string)
    requires w.Valid() && FilesScanned(w, listing)
    requires NoDuplicates(listing) ==> w.fileOrder == ShaderKeys(w.worldDir, listing)
    ensures var listing' := listing + [entry];
      NoDuplicates(listing') ==> ScanEntry(w, entry).fileOrder == ShaderKeys(w.worldDir, listing')
  {
    var listing' := listing + [entry];
    assert listing'[..|listing|] == listing;
    if NoDuplicates(listing') && IsShaderFile(entry) {
      assert entry !in listing by {
        forall k | 0 <= k < |listing|
          ensures listing[k] != entry
        {
          assert listing'[k] != listing'[|listing|];
        }
      }
      assert Key(w.worldDir, entry) !in w.files;
    }
  }

  lemma {:induction false} ScanComputes(w: WorldFolder, listing: seq<string>)
    requires w.Valid() && SlotsAllocated(w)
    requires w.files == map[] && w.fileOrder == []
    requires forall r :: w.ValidRef(r) ==> w.PassAt(r).shaders == map[]
    ensures var w' := Scan(w, listing);
      && SlotsAllocated(w')
      && FilesScanned(w', listing)
      && ShadersScanned(w')
      && (NoDuplicates(listing) ==> w'.fileOrder == ShaderKeys(w'.worldDir, listing))
  {
    var w' := Scan(w, listing);
    if |listing| > 0 {
      var init := listing[..|listing| - 1];
      var last := listing[|listing| - 1];
      var v := Scan(w, init);
      ScanComputes(w, init);
      assert init + [last] == listing;
      ScanEntryEffects(v, last);
      ScanEntryFrame(v, last);
      FilesKeyedStep(v, w', init, last);
      FilesAssignedStep(v, w', init, last);
      ShadersSoundStep(v, w', last);
      ShadersCompleteStep(v, w', last);
      OrderStep(v, init, last);
      assert forall r :: w.ValidRef(r) ==> w'.ValidRef(r);
      assert forall r :: w'.ValidRef(r) ==> w.ValidRef(r);
    } else {
      assert ShaderKeys(w.worldDir, listing) == [];
    }
  }

  /**
   * The world folder built from a listing: the passes carry the configured
   * names and their slot names; `files` has exactly one entry per listed
   * shader file (suffix `.csh`, `.gsh`, `.vsh` or `.fsh`), holding its
   * destination; each pass's `shaders` holds exactly the files that matched
   * it; and, for a listing without repetitions, `files` is filled in
   * listing order.
   */
  lemma BuildWorldFolderSpec(worldDir: string, deferredNames: seq<string>, compositeNames: seq<string>, listing: seq<string>)
    ensures var w := BuildWorldFolder(worldDir, deferredNames, compositeNames, listing);
      && PassesConfigured(w, worldDir, deferredNames, compositeNames)
      && FilesScanned(w, listing)
      && ShadersScanned(w)
      && (NoDuplicates(listing) ==> w.fileOrder == ShaderKeys(worldDir, listing))
  {
    var w0 := InitialFolder(worldDir, deferredNames, compositeNames);
    InitialFolderSpec(worldDir, deferredNames, compositeNames);
    ScanComputes(w0, listing);
    BuildWorldFolderPasses(worldDir, deferredNames, compositeNames, listing);
  }

  /** The passes of `w` are the configured ones, in order, with their slot names. */
  ghost predicate PassesConfigured(w: WorldFolder, worldDir: string, deferredNames: seq<string>, compositeNames: seq<string>) {
    && w.worldDir == worldDir
    && w.nameToPass == NameToPass(deferredNames, compositeNames)
    && |w.deferredPasses| == |deferredNames| && |w.compositePasses| == |compositeNames|
    && (forall i :: 0 <= i < |deferredNames| ==>
          w.deferredPasses[i].name == deferredNames[i] && w.deferredPasses[i].allocatedName == SlotName(Deferred, i))
    && (forall i :: 0 <= i < |compositeNames| ==>
          w.compositePasses[i].name == compositeNames[i] && w.compositePasses[i].allocatedName == SlotName(Composite, i))
  }

  /** The scan leaves the configured passes as they were built. */
  lemma BuildWorldFolderPasses(worldDir: string, deferredNames: seq<string>, compositeNames: seq<string>, listing: seq<string>)
    ensures PassesConfigured(BuildWorldFolder(worldDir, deferredNames, compositeNames, listing), worldDir, deferredNames, compositeNames)
  {
    var w0 := InitialFolder(worldDir, deferredNames, compositeNames);
    var w := BuildWorldFolder(worldDir, deferredNames, compositeNames, listing);
    assert SameSlots(w0, w);
    InitialFolderSpec(worldDir, deferredNames, compositeNames);
    forall i | 0 <= i < |deferredNames|
      ensures w.deferredPasses[i].name == deferredNames[i] && w.deferredPasses[i].allocatedName == SlotName(Deferred, i)
    {
      assert w0.ValidRef(PassRef(Deferred, i));
    }
    forall i | 0 <= i < |compositeNames|
      ensures w.compositePasses[i].name == compositeNames[i] && w.compositePasses[i].allocatedName == SlotName(Composite, i)
    {
      assert w0.ValidRef(PassRef(Composite, i));
    }
  }

  /** Before the scan, the passes carry their names and slot names and nothing is recorded. */
  lemma InitialFolderSpec(worldDir: string, deferredNames: seq<string>, compositeNames: seq<string>)
    ensures var w := InitialFolder(worldDir, deferredNames, compositeNames);
      && SlotsAllocated(w)
      && w.files == map[] && w.fileOrder == []
      && (forall r :: w.ValidRef(r) ==> w.PassAt(r).shaders == map[])
      && (forall r :: w.ValidRef(r) ==> w.PassAt(r).name == (if r.cat == Deferred then deferredNames else compositeNames)[r.index])
      && |w.deferredPasses| == |deferredNames| && |w.compositePasses| == |compositeNames|
  {
  }

}
