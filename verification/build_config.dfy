/**
 * The one configured world of the build script, and what the model says
 * about it: where its shader files go, how its properties text is
 * rewritten, and the order hazard of the cumulative rewrite.
 */
module BuildConfig {
  import opened Wrappers
  import opened Strings
  import opened RenderPasses
  import opened Transformer

  const World0Deferred: seq<string> := ["Atmosphere", "Lighting"]
  const World0Composite: seq<string> := ["Combine", "Temporal", "BloomDownsample", "BlurH", "BlurV", "Grade"]

  function World0Names(): map<string, PassRef> {
    NameToPass(World0Deferred, World0Composite)
  }

  /**
   * A world0 name at position `i` of its list, with no later occurrence
   * (and, for a deferred name, absent from the composite list), refers to
   * that position.
   */
  lemma World0Ref(name: string, c: Category, i: nat)
    requires c == Composite ==> i < |World0Composite| && World0Composite[i] == name && name !in World0Composite[i + 1..]
    requires c == Deferred ==>
      && i < |World0Deferred| && World0Deferred[i] == name && name !in World0Deferred[i + 1..]
      && name !in World0Composite
    ensures name in World0Names() && World0Names()[name] == PassRef(c, i)
  {
    NameToPassSpec(World0Deferred, World0Composite);
    if c == Composite {
      LastIndexOfAt(World0Composite, name, i);
    } else {
      LastIndexOfAt(World0Deferred, name, i);
    }
  }

  /** A name listed in neither world0 list is not registered. */
  lemma World0Unregistered(name: string)
    requires name !in World0Deferred && name !in World0Composite
    ensures name !in World0Names()
  {
    NameToPassSpec(World0Deferred, World0Composite);
  }

  /** In world0, `Atmosphere.fsh` takes the first deferred slot. */
  lemma AtmosphereDestination()
    ensures IsShaderFile("Atmosphere" + ".fsh")
    ensures Destination(World0Names(), "Atmosphere" + ".fsh") == "deferred" + ".fsh"
  {
    assert "Atmosphere" in World0Names() && World0Names()["Atmosphere"] == PassRef(Deferred, 0) by {
      World0Ref("Atmosphere", Deferred, 0);
    }
    assert ParseShaderName("Atmosphere" + ".fsh") == Some(ShaderName("Atmosphere", ".fsh")) by {
      ParseOtherStage("Atmosphere", ".fsh");
    }
    MatchedDestination(World0Names(), "Atmosphere" + ".fsh", "Atmosphere", ".fsh");
    assert SlotName(Deferred, 0) == "deferred";
  }

  /** In world0, `Lighting.vsh` takes the second deferred slot. */
  lemma LightingDestination()
    ensures IsShaderFile("Lighting" + ".vsh")
    ensures Destination(World0Names(), "Lighting" + ".vsh") == "deferred" + "1" + ".vsh"
  {
    assert "Lighting" in World0Names() && World0Names()["Lighting"] == PassRef(Deferred, 1) by {
      World0Ref("Lighting", Deferred, 1);
    }
    assert ParseShaderName("Lighting" + ".vsh") == Some(ShaderName("Lighting", ".vsh")) by {
      ParseOtherStage("Lighting", ".vsh");
    }
    MatchedDestination(World0Names(), "Lighting" + ".vsh", "Lighting", ".vsh");
    assert SlotName(Deferred, 1) == "deferred" + "1" by {
      assert Decimal(1) == "1";
    }
  }

  /** In world0, `Combine.csh` takes the first composite slot. */
  lemma CombineDestination()
    ensures IsShaderFile("Combine" + ".csh")
    ensures Destination(World0Names(), "Combine" + ".csh") == "composite" + ".csh"
  {
    assert "Combine" in World0Names() && World0Names()["Combine"] == PassRef(Composite, 0) by {
      World0Ref("Combine", Composite, 0);
    }
    assert ParseShaderName("Combine" + ".csh") == Some(ShaderName("Combine", ".csh")) by {
      ParseComputeWithoutTag("Combine");
    }
    MatchedDestination(World0Names(), "Combine" + ".csh", "Combine", ".csh");
    assert SlotName(Composite, 0) == "composite";
  }

  /** In world0, the compute shader `Temporal_1.csh` keeps its tag after the second composite slot. */
  lemma TemporalDestination()
    ensures IsShaderFile("Temporal" + "_" + "1" + "" + ".csh")
    ensures Destination(World0Names(), "Temporal" + "_" + "1" + "" + ".csh") == "composite" + "1" + ("_" + "1" + ".csh")
  {
    assert "Temporal" in World0Names() && World0Names()["Temporal"] == PassRef(Composite, 1) by {
      World0Ref("Temporal", Composite, 1);
    }
    assert ParseShaderName("Temporal" + "_" + "1" + "" + ".csh") == Some(ShaderName("Temporal", "_" + "1" + ".csh")) by {
      ParseComputeWithTag("Temporal", "1", "");
    }
    MatchedDestination(World0Names(), "Temporal" + "_" + "1" + "" + ".csh", "Temporal", "_" + "1" + ".csh");
    assert SlotName(Composite, 1) == "composite" + "1" by {
      assert Decimal(1) == "1";
    }
  }

  /** In world0, `unused.csh` names no configured pass and keeps its name. */
  lemma UnusedPassesThrough()
    ensures IsShaderFile("unused" + ".csh")
    ensures Destination(World0Names(), "unused" + ".csh") == "unused" + ".csh"
  {
    assert "unused" !in World0Names() by {
      World0Unregistered("unused");
    }
    assert ParseShaderName("unused" + ".csh") == Some(ShaderName("unused", ".csh")) by {
      ParseComputeWithoutTag("unused");
    }
    UnmatchedDestination(World0Names(), "unused" + ".csh", "unused", ".csh");
  }

  /** In world0, `Lighting_x.fsh` names the pass `Lighting_x`, which is not configured, so it keeps its name. */
  lemma UnderscoreFragmentPassesThrough()
    ensures IsShaderFile("Lighting_x" + ".fsh")
    ensures Destination(World0Names(), "Lighting_x" + ".fsh") == "Lighting_x" + ".fsh"
  {
    assert "Lighting_x" !in World0Names() by {
      World0Unregistered("Lighting_x");
    }
    assert ParseShaderName("Lighting_x" + ".fsh") == Some(ShaderName("Lighting_x", ".fsh")) by {
      ParseOtherStage("Lighting_x", ".fsh");
    }
    UnmatchedDestination(World0Names(), "Lighting_x" + ".fsh", "Lighting_x", ".fsh");
  }

  /**
   * A world0 file already named `deferred.fsh` matches no pass and keeps
   * its name — the destination of `Atmosphere.fsh` — so the two collide.
   */
  lemma PassThroughCollision()
    ensures IsShaderFile("deferred" + ".fsh") && IsShaderFile("Atmosphere" + ".fsh")
    ensures MatchedRef(World0Names(), "deferred" + ".fsh").None?
    ensures MatchedRef(World0Names(), "Atmosphere" + ".fsh").Some?
    ensures Destination(World0Names(), "deferred" + ".fsh") == Destination(World0Names(), "Atmosphere" + ".fsh")
  {
    assert IsShaderFile("deferred" + ".fsh") && MatchedRef(World0Names(), "deferred" + ".fsh").None?
      && Destination(World0Names(), "deferred" + ".fsh") == "deferred" + ".fsh" by {
      assert "deferred" !in World0Names() by {
        World0Unregistered("deferred");
      }
      assert ParseShaderName("deferred" + ".fsh") == Some(ShaderName("deferred", ".fsh")) by {
        ParseOtherStage("deferred", ".fsh");
      }
      UnmatchedDestination(World0Names(), "deferred" + ".fsh", "deferred", ".fsh");
    }
    assert MatchedRef(World0Names(), "Atmosphere" + ".fsh").Some? by {
      assert "Atmosphere" in World0Names() by {
        World0Ref("Atmosphere", Deferred, 0);
      }
      ParseOtherStage("Atmosphere", ".fsh");
    }
    AtmosphereDestination();
  }


  /**
   * The rewrite is cumulative, not token-based: in a world configured with
   * deferred pass `Blur` and composite pass `BlurH`, the line
   * `world0/BlurH` is first caught by the shorter pattern `world0/Blur`
   * and becomes `world0/deferredH`; the `BlurH` substitution never sees it.
   * Stated for any such pair of names `short` and `short + t`.
   */
  lemma PrefixHazard(worldDir: string, short: string, t: string, listing: seq<string>)
    requires !Contains(t, worldDir + "/" + short)
    requires !Contains(worldDir + "/" + "deferred" + t, worldDir + "/" + (short + t))
    ensures ProcessLine(worldDir + "/" + short + t, [BuildWorldFolder(worldDir, [short], [short + t], listing)])
      == worldDir + "/" + "deferred" + t
  {
    var w := BuildWorldFolder(worldDir, [short], [short + t], listing);
    assert && w.worldDir == worldDir
           && |w.deferredPasses| == 1 && |w.compositePasses| == 1
           && w.deferredPasses[0].name == short && w.deferredPasses[0].allocatedName == "deferred"
           && w.compositePasses[0].name == short + t by {
      BuildWorldFolderPasses(worldDir, [short], [short + t], listing);
      assert SlotName(Deferred, 0) == "deferred";
    }
    SinglePairHazard(w, short, t);
  }

  /** `PrefixHazard` for any world folder with the single pass pair `short`, `short + t`. */
  lemma SinglePairHazard(w: WorldFolder, short: string, t: string)
    requires |w.deferredPasses| == 1 && |w.compositePasses| == 1
    requires w.deferredPasses[0].name == short && w.deferredPasses[0].allocatedName == "deferred"
    requires w.compositePasses[0].name == short + t
    requires !Contains(t, w.worldDir + "/" + short)
    requires !Contains(w.worldDir + "/" + "deferred" + t, w.worldDir + "/" + (short + t))
    ensures ProcessLine(w.worldDir + "/" + short + t, [w]) == w.worldDir + "/" + "deferred" + t
  {
    var dir := w.worldDir;
    var out := dir + "/" + "deferred" + t;
    assert PassPattern(dir, w.deferredPasses[0]) == dir + "/" + short;
    assert PassPattern(dir, w.compositePasses[0]) == dir + "/" + (short + t);
    assert forall k :: 0 <= k < |w.compositePasses| ==> !Contains(out, PassPattern(dir, w.compositePasses[k])) by {
      forall k | 0 <= k < |w.compositePasses|
        ensures !Contains(out, PassPattern(dir, w.compositePasses[k]))
      {
        assert k == 0;
      }
    }
    ShorterPatternWins(w, 0, 0, t);
    assert PassPattern(dir, w.compositePasses[0]) == dir + "/" + short + t;
  }

  /** The `Blur` / `BlurH` configuration meets the conditions of the hazard. */
  lemma BlurHazardApplies()
    ensures !Contains("H", "world0" + "/" + "Blur")
    ensures !Contains("world0" + "/" + "deferred" + "H", "world0" + "/" + ("Blur" + "H"))
  {
    AbsentChar("H", "world0" + "/" + "Blur", 'w');
    AbsentChar("world0" + "/" + "deferred" + "H", "world0" + "/" + ("Blur" + "H"), 'B');
  }

  /**
   * In a world whose composite pass `j` is named like deferred pass `i`
   * followed by `t`, a line naming composite pass `j` is rewritten by the
   * deferred substitution, keeping `t` after the deferred slot, as long as
   * no other pass pattern occurs in the line before or after that step.
   */
  lemma ShorterPatternWins(w: WorldFolder, i: nat, j: nat, t: string)
    requires i < |w.deferredPasses| && j < |w.compositePasses|
    requires w.compositePasses[j].name == w.deferredPasses[i].name + t
    requires forall k :: 0 <= k < i ==>
      !Contains(PassPattern(w.worldDir, w.compositePasses[j]), PassPattern(w.worldDir, w.deferredPasses[k]))
    requires !Contains(t, PassPattern(w.worldDir, w.deferredPasses[i]))
    requires forall k :: i < k < |w.deferredPasses| ==>
      !Contains(w.worldDir + "/" + w.deferredPasses[i].allocatedName + t, PassPattern(w.worldDir, w.deferredPasses[k]))
    requires forall k :: 0 <= k < |w.compositePasses| ==>
      !Contains(w.worldDir + "/" + w.deferredPasses[i].allocatedName + t, PassPattern(w.worldDir, w.compositePasses[k]))
    ensures ProcessLine(PassPattern(w.worldDir, w.compositePasses[j]), [w])
      == w.worldDir + "/" + w.deferredPasses[i].allocatedName + t
  {
    var ds, cs, dir := w.deferredPasses, w.compositePasses, w.worldDir;
    var d := ds[i];
    var short := PassPattern(dir, d);
    var line := PassPattern(dir, cs[j]);
    var out := dir + "/" + d.allocatedName + t;
    assert line == short + t;
    assert ApplyPasses(line, dir, ds[..i]) == line by {
      forall p | p in ds[..i]
        ensures !Contains(line, PassPattern(dir, p))
      {
        var k :| 0 <= k < i && ds[..i][k] == p;
      }
      ApplyPassesAbsent(line, dir, ds[..i]);
    }
    assert ApplyPasses(line, dir, [d]) == out by {
      ReplaceLeading(short, t, dir + "/" + d.allocatedName);
      ReplaceAbsent(t, short, dir + "/" + d.allocatedName);
      assert [d][1..] == [];
    }
    assert ApplyPasses(out, dir, ds[i + 1..]) == out by {
      forall p | p in ds[i + 1..]
        ensures !Contains(out, PassPattern(dir, p))
      {
        var k :| 0 <= k < |ds| - i - 1 && ds[i + 1..][k] == p;
        assert p == ds[i + 1 + k];
      }
      ApplyPassesAbsent(out, dir, ds[i + 1..]);
    }
    assert ApplyPasses(line, dir, ds) == out by {
      assert ds == ds[..i] + [d] + ds[i + 1..];
      ApplyPassesAppend(line, dir, ds[..i] + [d], ds[i + 1..]);
      ApplyPassesAppend(line, dir, ds[..i], [d]);
    }
    assert ApplyPasses(out, dir, cs) == out by {
      forall p | p in cs
        ensures !Contains(out, PassPattern(dir, p))
      {
        var k :| 0 <= k < |cs| && cs[k] == p;
      }
      ApplyPassesAbsent(out, dir, cs);
    }
    assert [w][1..] == [];
  }

  /** A name starting with a capital letter, as every configured pass name does. */
  predicate Capitalised(name: string) {
    |name| >= 1 && 'A' <= name[0] <= 'Z'
  }

  predicate NoCapitals(s: string) {
    forall k :: 0 <= k < |s| ==> !('A' <= s[k] <= 'Z')
  }

  /** All world0 pass names are capitalised, and the world directory has no capitals. */
  lemma World0Capitalised()
    ensures forall i :: 0 <= i < |World0Deferred| ==> Capitalised(World0Deferred[i])
    ensures forall i :: 0 <= i < |World0Composite| ==> Capitalised(World0Composite[i])
    ensures NoCapitals("world0")
  {
  }

  /**
   * A properties line naming the first deferred pass of a world, such as
   * `world0/Atmosphere`, is rewritten to that pass's slot path
   * (`world0/deferred`) and nothing else, when every pass name is
   * capitalised and the world directory has no capitals: the slot path then
   * contains no other pass pattern.
   */
  lemma FirstPassLine(worldDir: string, deferredNames: seq<string>, compositeNames: seq<string>, listing: seq<string>)
    requires |deferredNames| >= 1
    requires forall i :: 0 <= i < |deferredNames| ==> Capitalised(deferredNames[i])
    requires forall i :: 0 <= i < |compositeNames| ==> Capitalised(compositeNames[i])
    requires NoCapitals(worldDir)
    ensures ProcessLine(worldDir + "/" + deferredNames[0], [BuildWorldFolder(worldDir, deferredNames, compositeNames, listing)])
      == worldDir + "/" + "deferred"
  {
    BuildWorldFolderPasses(worldDir, deferredNames, compositeNames, listing);
    ConfiguredFirstPassLine(BuildWorldFolder(worldDir, deferredNames, compositeNames, listing), worldDir, deferredNames, compositeNames);
  }

  /** The shipped world0: the line `world0/Atmosphere` becomes `world0/deferred`, whatever the folder listing. */
  lemma World0FirstPassLine(listing: seq<string>)
    ensures ProcessLine("world0" + "/" + "Atmosphere", [BuildWorldFolder("world0", World0Deferred, World0Composite, listing)])
      == "world0" + "/" + "deferred"
  {
    World0Capitalised();
    FirstPassLine("world0", World0Deferred, World0Composite, listing);
  }

  /** The same, for any world folder whose passes are configured from the two name lists. */
  lemma ConfiguredFirstPassLine(w: WorldFolder, worldDir: string, deferredNames: seq<string>, compositeNames: seq<string>)
    requires PassesConfigured(w, worldDir, deferredNames, compositeNames)
    requires |deferredNames| >= 1
    requires forall i :: 0 <= i < |deferredNames| ==> Capitalised(deferredNames[i])
    requires forall i :: 0 <= i < |compositeNames| ==> Capitalised(compositeNames[i])
    requires NoCapitals(worldDir)
    ensures ProcessLine(worldDir + "/" + deferredNames[0], [w]) == worldDir + "/" + "deferred"
  {
    var out := worldDir + "/" + "deferred";
    assert w.deferredPasses[0].allocatedName == "deferred" by {
      assert SlotName(Deferred, 0) == "deferred";
    }
    assert NoCapitals(out);
    PatternsAbsent(out, worldDir, w.deferredPasses);
    PatternsAbsent(out, worldDir, w.compositePasses);
    OnlyFirstPassApplies(worldDir + "/" + deferredNames[0], w, out);
  }

  /** No pattern of a capitalised pass occurs in a string without capitals. */
  lemma PatternsAbsent(out: string, dir: string, passes: seq<RenderPass>)
    requires forall i :: 0 <= i < |passes| ==> Capitalised(passes[i].name)
    requires NoCapitals(out)
    ensures forall i :: 0 <= i < |passes| ==> !Contains(out, PassPattern(dir, passes[i]))
  {
    forall i | 0 <= i < |passes|
      ensures !Contains(out, PassPattern(dir, passes[i]))
    {
      CapitalAbsent(out, dir, passes[i]);
    }
  }

  lemma CapitalAbsent(out: string, dir: string, p: RenderPass)
    requires Capitalised(p.name) && NoCapitals(out)
    ensures !Contains(out, PassPattern(dir, p))
  {
    assert PassPattern(dir, p)[|dir| + 1] == p.name[0];
    AbsentChar(out, PassPattern(dir, p), p.name[0]);
  }

  /**
   * A line that is exactly the first deferred pattern of a world becomes
   * that pass's slot path when no other pattern of the world occurs in it.
   */
  lemma OnlyFirstPassApplies(line: string, w: WorldFolder, out: string)
    requires |w.deferredPasses| >= 1
    requires line == PassPattern(w.worldDir, w.deferredPasses[0])
    requires out == w.worldDir + "/" + w.deferredPasses[0].allocatedName
    requires forall i :: 1 <= i < |w.deferredPasses| ==> !Contains(out, PassPattern(w.worldDir, w.deferredPasses[i]))
    requires forall i :: 0 <= i < |w.compositePasses| ==> !Contains(out, PassPattern(w.worldDir, w.compositePasses[i]))
    ensures ProcessLine(line, [w]) == out
  {
    assert ReplaceAll(line, line, out) == out by {
      ReplaceLeading(line, "", out);
      assert line + "" == line;
      assert ReplaceAll("", line, out) == "";
    }
    var rest := w.deferredPasses[1..];
    assert ApplyPasses(line, w.worldDir, w.deferredPasses) == ApplyPasses(out, w.worldDir, rest);
    assert forall p :: p in rest ==> !Contains(out, PassPattern(w.worldDir, p)) by {
      forall p | p in rest
        ensures !Contains(out, PassPattern(w.worldDir, p))
      {
        var i :| 0 <= i < |rest| && rest[i] == p;
        assert p == w.deferredPasses[i + 1];
      }
    }
    ApplyPassesAbsent(out, w.worldDir, rest);
    ApplyPassesAbsent(out, w.worldDir, w.compositePasses);
    assert [w][1..] == [];
  }
}
