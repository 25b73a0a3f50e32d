/** The parts of `pathlib` the build tool uses, on POSIX paths. */
module Paths {
  import opened Wrappers
  import opened Strings

  /** A path, as the tuple `Path.parts`. */
  type Path = seq<string>

  /** A component pathlib keeps: not empty and not ".". */
  predicate IsComponent(c: string) {
    c != "" && c != "."
  }

  /** The split pieces pathlib keeps as components, in order. */
  function Components(pieces: seq<string>): (r: Path)
    ensures |r| <= |pieces|
    ensures forall k :: 0 <= k < |r| ==> IsComponent(r[k]) && r[k] in pieces
    ensures forall k :: 0 <= k < |pieces| && IsComponent(pieces[k]) ==> pieces[k] in r
  {
    if |pieces| == 0 then []
    else if IsComponent(pieces[0]) then [pieces[0]] + Components(pieces[1..])
    else Components(pieces[1..])
  }

  /** `PurePosixPath(s).parts`: a leading "/" anchor, then the non-empty, non-"." pieces between slashes. */
  function Parts(s: string): (p: Path)
    ensures forall k :: 0 <= k < |p| ==> IsComponent(p[k])
    ensures forall k :: 0 < k < |p| ==> '/' !in p[k]
    ensures |p| > 0 && '/' in p[0] ==> p[0] == "/"
  {
    var tail := Components(Split(s, '/'));
    assert forall k :: 0 <= k < |tail| ==> '/' !in tail[k];
    (if |s| > 0 && s[0] == '/' then ["/"] else []) + tail
  }

  /** The string form of a relative path: its parts joined by "/". */
  function PathString(p: Path): string {
    Join(p, '/')
  }

  /** A relative path survives printing and re-parsing. */
  lemma PartsOfPathString(p: Path)
    requires |p| >= 1
    requires forall k :: 0 <= k < |p| ==> IsComponent(p[k]) && '/' !in p[k]
    ensures Parts(PathString(p)) == p
  {
    SplitJoin(p, '/');
    ComponentsKeepsComponents(p);
    var s := PathString(p);
    SplitHead(s, '/');
    assert StartsWith(s, p[0]);
    assert s[0] == p[0][0];
  }

  lemma {:induction false} ComponentsKeepsComponents(p: Path)
    requires forall k :: 0 <= k < |p| ==> IsComponent(p[k])
    ensures Components(p) == p
  {
    if |p| > 0 {
      ComponentsKeepsComponents(p[1..]);
      assert [p[0]] + p[1..] == p;
    }
  }

  /** `Path.name`: the final component, or "" for an empty path or a bare anchor. */
  function Name(p: Path): string {
    if |p| == 0 || p[|p| - 1] == "/" then "" else p[|p| - 1]
  }

  /** `PurePath.suffix` of a file name: from its last dot, unless that dot is the first or last character. */
  function Suffix(name: string): string {
    var i := LastIndexOf(name, '.');
    if 0 < i < |name| - 1 then name[i..] else ""
  }

  /** `PurePath.stem` of a file name: the name without its suffix. */
  function Stem(name: string): string {
    var i := LastIndexOf(name, '.');
    if 0 < i < |name| - 1 then name[..i] else name
  }

  /** Stem and suffix cut the name in two; a non-empty suffix is a dot and at least one dot-free character after a non-empty stem. */
  lemma StemAndSuffix(name: string)
    ensures Stem(name) + Suffix(name) == name
    ensures Suffix(name) != "" ==> |Stem(name)| >= 1 && |Suffix(name)| >= 2 && Suffix(name)[0] == '.' && '.' !in Suffix(name)[1..]
  {
    var i := LastIndexOf(name, '.');
    if 0 < i < |name| - 1 {
      assert name[..i] + name[i..] == name;
      assert name[i..][1..] == name[i + 1..];
    }
  }

  /** A name made of a non-empty base and a dotted extension has that extension as suffix and the base as stem. */
  lemma SuffixOfExtension(base: string, ext: string)
    requires |base| >= 1
    requires |ext| >= 2 && ext[0] == '.' && '.' !in ext[1..]
    ensures Suffix(base + ext) == ext
    ensures Stem(base + ext) == base
  {
    var name := base + ext;
    var i := LastIndexOf(name, '.');
    assert name[|base|] == '.';
    assert name[|base| + 1..] == ext[1..];
    assert name[i..] == ext;
    assert name[..i] == base;
  }

  /** `p.relative_to(base)`: the rest of `p` when `base` is a leading part of it; pathlib raises otherwise. */
  function RelativeTo(p: Path, base: Path): (r: Option<Path>)
    ensures r.Some? <==> |base| <= |p| && p[..|base|] == base
    ensures r.Some? ==> base + r.value == p
  {
    if |base| <= |p| && p[..|base|] == base then Some(p[|base|..]) else None
  }
}
