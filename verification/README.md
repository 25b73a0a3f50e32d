# Revelation build tool — a Dafny model

Revelation is a Minecraft shader pack whose sources name render passes by
what they do (`Atmosphere`, `Lighting`, `Combine`, ...). Its small Python
build tool projects that source tree onto the names the shader loader
expects. This project models the core of that tool, plus the pure parts of
the glyph encoder script, as immutable datatypes and pure functions, and
proves properties about them.

- **Slot allocation** (`RenderPasses`, `buildsystem/render_pass.py`)
  - The pass at position `i` of the deferred or composite list gets the
    slot name `deferred`/`composite` followed by `i`; position 0 gets no
    number.
  - `map_name_to_pass` registers deferred names, then composite names. A
    later registration wins.
  - The directory scan parses every `.csh`/`.gsh`/`.vsh`/`.fsh` file name
    into a candidate pass name and a stage suffix. A `.csh` stem is split
    on `_`.
  - The scan assigns each such file either its pass's slot name plus the
    suffix, or its own name.
  - Paths are `Path.parts` tuples (`seq<string>`). `files` keeps its
    insertion order as `fileOrder`.
- **Build projection** (`Transformer`, `buildsystem/transformer.py`)
  - `transform` returns the list of filesystem actions it would perform:
    directory creation, file copy, tree copy, properties rewrite.
  - The directory listings are inputs, in the order the filesystem gives
    them.
  - `transform_shaders_properties` is modelled on the text: lines are cut
    as `readlines` does. Each line is rewritten by the cumulative fold of
    literal replace-alls. The lines are written back to back.
- **Watch handler** (`Daemon`, `buildsystem/daemon.py`): `on_modified` is
  a pure function from the destination, the world folders and the event
  to an `Outcome`.
  - Exceptions swallowed in the world branch become `Failure` attempts.
  - Exceptions that escape become `Raised`.
- **Glyph encoder** (`TextEncGen`, `scripts/text_enc_gen/text_enc_gen.py`)
  - Bit packing of a glyph bitmap into a 64-bit word.
  - Its uppercase hex rendering as two 32-bit words.
  - `read_charset` on the file's text.
  - The two hard-coded identifiers.
- **World0 configuration** (`BuildConfig`): the one world configured in
  `build.py`, as concrete consequences of the general model.

`Strings`, `Paths` and `Wrappers` hold the string, `pathlib` and result
helpers the model needs: `split`, `join`, `replace`, `strip`, decimal and
hex digits, `parts`/`name`/`suffix`/`stem`/`relative_to`.

`copy_to_dest` has no fallback. A path that is not a key of `files` raises
`KeyError` (`buildsystem/transformer.py:79`), and the watch handler catches
and logs it (`buildsystem/daemon.py:39-40`). The model returns that error as
a `Failure` attempt (`Transformer.CopyToDest`, `Daemon.WorldBranchIsolated`).

The handler and the full build pick world directories by different rules.
The handler takes the world branch when the path string contains `world`
and copies for each configured world whose directory is a path component
(`buildsystem/daemon.py:30-32`). The full build runs `copy_folder` only for
a directory of `./shaders` whose name starts with `world`, and copies any
other directory verbatim (`buildsystem/transformer.py:32-37`). So for a
configured world such as `myworld`, an edit in watch mode writes the
renamed file that the full build never produces
(`Daemon.WorldEditOutsideFullBuild`).

## Model

| member | source | states |
|---|---|---|
| `RenderPasses.SlotNamesDistinct` | buildsystem/render_pass.py:28-53 | Two different (category, position) pairs get different slot names. So slot names within a category are pairwise distinct, and no deferred slot equals a composite slot. |
| `RenderPasses.SlotNameWithSuffixInjective` | buildsystem/render_pass.py:28-53 | A slot name followed by a stage suffix that starts with `.` or `_` determines the category, the position and the suffix. |
| `RenderPasses.RegisterLastWins` | buildsystem/render_pass.py:55-59 | Registering a name list keeps existing names and adds the listed ones. Each listed name refers to its last position in the list. Unlisted names keep their old value. |
| `RenderPasses.NameToPassSpec` | buildsystem/render_pass.py:55-59 | `map_name_to_pass` has exactly the configured names as keys. A composite name refers to its last composite position, even when it is also a deferred name. Any other name refers to its last deferred position. |
| `RenderPasses.ParseShaderName` | buildsystem/render_pass.py:61-74 | A file name is parsed iff its last suffix is one of `.csh`, `.gsh`, `.vsh`, `.fsh`. The stage suffix it yields is non-empty and starts with `.` or `_`. |
| `RenderPasses.ParseComputeWithTag` | buildsystem/render_pass.py:68-72 | `pass_tag<rest>.csh` names `pass` with suffix `_tag.csh`. Any further `_` pieces in `rest` are dropped. |
| `RenderPasses.ParseComputeWithoutTag` | buildsystem/render_pass.py:68-71 | A `.csh` stem without `_` is the pass name, and the suffix is `.csh`. |
| `RenderPasses.ParseOtherStage` | buildsystem/render_pass.py:73-74 | For `.gsh`/`.vsh`/`.fsh`, the whole stem (`_` included) is the pass name and the extension is the suffix. |
| `RenderPasses.MatchedDestination` | buildsystem/render_pass.py:76-80 | A file whose parsed pass is registered goes to that pass's slot name plus its stage suffix. |
| `RenderPasses.UnmatchedDestination` | buildsystem/render_pass.py:81-82 | A file whose parsed pass is not registered matches nothing and keeps its own name. |
| `RenderPasses.MatchedDestinations` | buildsystem/render_pass.py:76-80 | Two matched files get the same destination iff they match the same pass with the same stage suffix. |
| `RenderPasses.ComputeTagCollision` | buildsystem/render_pass.py:68-80 | `.csh` files of a configured pass that share the first tag get one and the same destination, whatever their later `_` pieces are. |
| `RenderPasses.ScanEntryFrame` | buildsystem/render_pass.py:63-85 | One scan iteration keeps the folder well formed: names refer to existing passes, and `fileOrder` lists each key of `files` once. It also leaves names and slot names alone. |
| `RenderPasses.Scan` | buildsystem/render_pass.py:63-85 | The scan loop keeps the folder well formed and changes no pass name, slot name or `map_name_to_pass` entry. |
| `RenderPasses.ScanEntryFiles` | buildsystem/render_pass.py:63-85 | A non-shader entry changes nothing. A shader entry sets exactly its own key of `files`, to its destination. |
| `RenderPasses.ScanEntryShaders` | buildsystem/render_pass.py:11-13 | `add_shader` records the file, with the same destination, in the `shaders` of the pass it matched, and in no other pass. |
| `RenderPasses.ScanComputes` | buildsystem/render_pass.py:61-85 | After the scan, `files` has one entry per listed shader file, holding its destination, and nothing else. Each pass's `shaders` holds exactly the files that matched it. For a listing without repeats, `files` is filled in listing order. |
| `RenderPasses.BuildWorldFolderSpec` | buildsystem/render_pass.py:16-85 | The world folder built from a configuration and a listing has the configured passes with their slot names. It has the scanned `files` and `shaders` described above, in listing order. |
| `RenderPasses.BuildWorldFolderPasses` | buildsystem/render_pass.py:34-59 | After the scan, the pass lists are the configured names in order, each with the slot name of its position. |
| `RenderPasses.InitialFolderSpec` | buildsystem/render_pass.py:23-59 | Before the scan, every pass carries its configured name and slot name. Nothing is recorded yet. |
| `Transformer.ApplyPassesSequential` | buildsystem/transformer.py:53-62 | The loop over one pass list is the replace-all of each `world/name` by `world/allocated`, one after the other, in list order. |
| `Transformer.ProcessLineSequential` | buildsystem/transformer.py:50-63 | A line's rewrite is the flat sequence of substitutions applied cumulatively. Order: world by world, deferred before composite, configuration order. |
| `Transformer.ProcessLineAbsent` | buildsystem/transformer.py:52-62 | A line containing no configured `world/name` is unchanged. |
| `Transformer.ReadLines` | buildsystem/transformer.py:43-45 | `readlines` cuts the text into non-empty lines. Each line holds `\n` only at its end, every line but the last ends in `\n`, and the lines concatenate back to the text. |
| `Transformer.ProcessLines` | buildsystem/transformer.py:48-63 | One output line per input line, in the same order. Each output line is that line's rewrite. |
| `Transformer.TransformPropertiesUnchanged` | buildsystem/transformer.py:40-66 | A properties text that mentions no configured `world/name` is written back unchanged. |
| `Transformer.CopyToDest` | buildsystem/transformer.py:78-79 | The copy fails iff the source is not a key of `files`; there is no fallback. Otherwise it copies that source to `destDir/files[src]`. |
| `Transformer.CopyKeys` | buildsystem/transformer.py:74-75 | One copy per key, in order, each to `dest/files[key]`. |
| `Transformer.CopyFolder` | buildsystem/transformer.py:69-75 | `copy_folder` first creates `dest/world_dir`. It then copies exactly the keys of `files`, each once: action `i + 1` copies the `i`-th key in insertion order to `dest/world_dir/files[key]`. |
| `Transformer.CopiesCoverFiles` | buildsystem/transformer.py:74-75 | The copies made in `fileOrder` cover every key of `files` and nothing else. Copy `i` is of the `i`-th key, to `dest/world_dir/files[key]`. |
| `Transformer.ApplyPassesAppend` | buildsystem/transformer.py:53-62 | Running two pass lists one after the other is running their concatenation. |
| `Transformer.RootActions` | buildsystem/transformer.py:7-16 | At the project root, an entry is copied iff it is a file whose suffix is not `.py`, or a directory not in the excluded list. |
| `Transformer.WorldCopies` | buildsystem/transformer.py:34-37 | A `world*` directory is projected by exactly the configured worlds with that name. An unconfigured one produces nothing. |
| `Transformer.ShaderActions` | buildsystem/transformer.py:23-37 | The loop over `./shaders` does every action of every entry and nothing else. |
| `Transformer.ShaderEntryRules` | buildsystem/transformer.py:25-37 | Per entry of `./shaders`: `shaders.properties` is rewritten and other files are copied under their name. Directories not starting with `world` are copied whole. `world*` directories are projected only by matching worlds. Other entries produce nothing. |
| `Transformer.TransformSpec` | buildsystem/transformer.py:6-37 | The full build creates `dest/shaders` right after the root actions. It rewrites the properties file iff `./shaders` lists it as a file. |
| `Daemon.WorldAttempts` | buildsystem/daemon.py:31-38 | One attempt per configured world whose directory is a component of the path, and no other, in configuration order. The number of attempts is the number of such worlds, and the attempt for the `m`-th such world is at position `m`. With no such world, there are no attempts. |
| `Daemon.AttemptsIndexedStep` | buildsystem/daemon.py:31-38 | One iteration of the loop keeps each matching world's attempt at its rank among the matching worlds. |
| `Daemon.MatchCountPrefix` | buildsystem/daemon.py:31-32 | The matching worlds of a prefix are counted from its first world on, and a prefix has no more of them than the whole list. |
| `Daemon.OnModified` | buildsystem/daemon.py:25-45 | Only a `FileModifiedEvent` does anything. The world branch runs iff the raw path string contains `world`. The rewrite branch runs iff the path does not contain `world` and is named `shaders.properties`, and it then rewrites that path to `dest/shaders.properties`. An exception escapes only for a path not under `shaders`. |
| `Daemon.AnyPropertiesNameRewrites` | buildsystem/daemon.py:41-42 | Any modified path without `world` whose name is `shaders.properties` is rewritten to `dest/shaders.properties`, wherever it lies. |
| `Daemon.NestedPropertiesPath` | buildsystem/daemon.py:41 | `shaders/lib/shaders.properties` has the parts `shaders`, `lib`, `shaders.properties`, so its name is `shaders.properties`, and it does not contain `world`. |
| `Daemon.WorldBranchIsolated` | buildsystem/daemon.py:30-40 | A path mentioning `world` never raises. Each attempt fails exactly when the path is not a key of that world's `files`, with the missing-key error. |
| `Daemon.WorldSubstringWithoutWorld` | buildsystem/daemon.py:30-32 | A path that contains `world` but no configured world directory as a component does nothing, even when it is named `shaders.properties`. |
| `Daemon.WorldEditAgreesWithBuild` | buildsystem/daemon.py:31-38 | Modifying a scanned shader file of a world performs a successful copy. That copy is one of those `copy_folder` performs for that world into the same destination. |
| `Daemon.WorldEditInFullBuild` | buildsystem/daemon.py:31-38 | For a world directory that starts with `world` and is listed in `./shaders`, the handler's successful copy is one of the actions of the full build `transform`. |
| `Daemon.FolderCopyInBuild` | buildsystem/transformer.py:32-37 | Every copy `copy_folder` makes for a listed directory starting with `world` is an action of the full build. |
| `Daemon.WorldEntryActions` | buildsystem/transformer.py:34-37 | The actions of a `world*` entry include every copy `copy_folder` makes for a world of that name. |
| `Daemon.EntryActionInBuild` | buildsystem/transformer.py:6-37 | An action of a listed entry of `./shaders` is an action of the full build. |
| `Transformer.WorldCopiesMember` | buildsystem/transformer.py:34-37 | Every copy of a world configured under a name is among the actions for a directory of that name. |
| `Daemon.WorldEditOutsideFullBuild` | buildsystem/daemon.py:30-38 | For a configured world directory that contains `world` without starting with it, the handler copies the edited file under its destination name, and that copy is not among the actions of the full build of the directory. |
| `Daemon.VerbatimWorldBuild` | buildsystem/transformer.py:32-37 | A `./shaders` directory not starting with `world` is built as `mkdir dest/shaders` plus a verbatim `copytree`, even when it is a configured world. |
| `Daemon.NoFileCopyInVerbatimBuild` | buildsystem/transformer.py:32-37 | That build copies no single file. |
| `Daemon.MyWorldName` | buildsystem/transformer.py:32 | `myworld` contains `world` but does not start with it. |
| `Daemon.PropertiesEditAgreesWithBuild` | buildsystem/daemon.py:41-42 | Modifying `shaders/shaders.properties` rewrites it to the place the full build wrote it. |
| `Daemon.PropertiesPathString` | buildsystem/daemon.py:41 | The path `shaders/shaders.properties` has the parts `shaders`, `shaders.properties` and does not contain `world`. |
| `Daemon.OtherPathOutcome` | buildsystem/daemon.py:43-45 | Any other path escapes with an error iff it is not under `./shaders`. Otherwise it is copied to `dest` plus its relative path. |
| `Daemon.PassThroughEdit` | buildsystem/daemon.py:43-45 | A modified file `shaders/<rel>` outside the two special branches is copied to `dest/<rel>`. |
| `TextEncGen.OrBitSets` | scripts/text_enc_gen/text_enc_gen.py:60 | OR-ing `1 << p` into the word is setting bit `p` of its bit sequence. |
| `TextEncGen.PackBitmap` | scripts/text_enc_gen/text_enc_gen.py:55-60 | The nested loops compute the word whose bits are defined pixel by pixel. |
| `TextEncGen.PackedBitExact` | scripts/text_enc_gen/text_enc_gen.py:55-60 | Bit `k` of the word is set iff some lit pixel `(i, j)` has `(7-i)*8 + j + offset == k`. No other bit is set. |
| `TextEncGen.PackedValueBits` | scripts/text_enc_gen/text_enc_gen.py:55-60 | The bits of the word are exactly the per-pixel bits. There are none at 64 or above. |
| `TextEncGen.PackedValueBound` | scripts/text_enc_gen/text_enc_gen.py:52-60 | The packed word is below 2^64. |
| `TextEncGen.TopRowInTopByte` | scripts/text_enc_gen/text_enc_gen.py:58-60 | Pixel `j` of row 0 is bit `56 + j + offset`: row 0 fills the top byte. |
| `TextEncGen.Hex08RoundTrip` | scripts/text_enc_gen/text_enc_gen.py:63 | A 32-bit word prints as exactly eight uppercase hex digits that read back as the word. |
| `TextEncGen.FormatUvec2RoundTrip` | scripts/text_enc_gen/text_enc_gen.py:62-63 | Printing a 64-bit word as `0x<low>, 0x<high>` and reading the two words back gives the word. |
| `TextEncGen.EncodeBitmapToUvec2` | scripts/text_enc_gen/text_enc_gen.py:47-63 | The encoder fails with the size error iff `rows > 8` or `width + offset > 8`. It fails with an index error iff the buffer is shorter than `rows * width`. Otherwise it returns the printed packed word. |
| `TextEncGen.NonBlankLines` | scripts/text_enc_gen/text_enc_gen.py:71 | The first comprehension keeps exactly the stripped texts of lines that are not blank. |
| `TextEncGen.NonBlankLinesAppend` | scripts/text_enc_gen/text_enc_gen.py:71 | The first comprehension keeps file order: on a concatenation it is the concatenation of the results. |
| `TextEncGen.UncommentedLines` | scripts/text_enc_gen/text_enc_gen.py:72 | The second comprehension keeps exactly the lines not starting with `#`. |
| `TextEncGen.UncommentedLinesAppend` | scripts/text_enc_gen/text_enc_gen.py:72 | The second comprehension keeps file order in the same way. |
| `TextEncGen.KeptAround` | scripts/text_enc_gen/text_enc_gen.py:70-72 | An interpreted line sits, stripped, between the interpreted lines before it and those after it. |
| `TextEncGen.ReadCharsetLastLine` | scripts/text_enc_gen/text_enc_gen.py:66-88 | If line `i` of the file is interpreted and no later interpreted line defines the same character, `read_charset` maps that character to line `i`'s identifier. |
| `TextEncGen.LastKeptLineWins` | scripts/text_enc_gen/text_enc_gen.py:70-86 | The same, over the list of the file's lines. |
| `TextEncGen.KeptLinesSpec` | scripts/text_enc_gen/text_enc_gen.py:70-72 | A text is interpreted iff it is a line stripped of `\n\t ` that is non-empty and does not start with `#`. |
| `TextEncGen.IdentifiersSpec` | scripts/text_enc_gen/text_enc_gen.py:76-86 | Every kept line's first token is a key, and nothing else is. Each key gets `CHAR_` plus the second token (or the first) of the last line defining it. |
| `TextEncGen.KeptLineChar` | scripts/text_enc_gen/text_enc_gen.py:77-78 | The character a kept line defines is a non-empty token without spaces, and it is not `#`. |
| `TextEncGen.CharsetKeys` | scripts/text_enc_gen/text_enc_gen.py:66-88 | No charset file can define `#` or a space. |
| `TextEncGen.OverridesOnlyAdd` | scripts/text_enc_gen/text_enc_gen.py:127-129 | After the overrides, `#` maps to `CHAR_HASH` and space to `CHAR_SPACE`. The keys are the file's plus those two, and every file entry is kept. |
| `TextEncGen.OverridesExtend` | scripts/text_enc_gen/text_enc_gen.py:127-129 | Setting the two identifiers on a map without them adds exactly two keys and changes no other entry. |
| `Strings.Strip` | scripts/text_enc_gen/text_enc_gen.py:71 | `strip("\n\t ")` removes only blank characters from both ends. The result starts and ends with a non-blank character, or is empty. |
| `Paths.Parts` | buildsystem/daemon.py:29 | `Path(s).parts` yields non-empty, non-`.` components. Only a leading anchor contains `/`. |
| `Paths.RelativeTo` | buildsystem/daemon.py:44 | `relative_to` succeeds iff the base is a leading part of the path, and then base plus result is the path. |
| `Paths.StemAndSuffix` | buildsystem/render_pass.py:64-66 | Stem and suffix cut the name in two. A non-empty suffix is a dot followed by dot-free characters, after a non-empty stem. |
| `BuildConfig.World0Ref` | build.py:18-20 | In world0, a name at its last position of its list (and, if deferred, absent from the composite list) refers to that position. |
| `BuildConfig.AtmosphereDestination` | build.py:18-20 | `Atmosphere.fsh` goes to `deferred.fsh`. |
| `BuildConfig.LightingDestination` | build.py:18-20 | `Lighting.vsh` goes to `deferred1.vsh`. |
| `BuildConfig.CombineDestination` | build.py:18-20 | `Combine.csh` goes to `composite.csh`. |
| `BuildConfig.TemporalDestination` | build.py:18-20 | `Temporal_1.csh` goes to `composite1_1.csh`. |
| `BuildConfig.UnusedPassesThrough` | buildsystem/render_pass.py:81-82 | In world0, `unused.csh` keeps its name. |
| `BuildConfig.UnderscoreFragmentPassesThrough` | buildsystem/render_pass.py:73-74 | In world0, `Lighting_x.fsh` names the unconfigured pass `Lighting_x` and keeps its name. |
| `BuildConfig.PassThroughCollision` | buildsystem/render_pass.py:76-82 | In world0, a pass-through file `deferred.fsh` gets the same destination as the matched `Atmosphere.fsh`. |
| `BuildConfig.PrefixHazard` | buildsystem/transformer.py:52-62 | With the single deferred pass `short` and the single composite pass `short + t`, the line `world/short t` becomes `world/deferred t`. The longer pattern never applies. |
| `BuildConfig.SinglePairHazard` | buildsystem/transformer.py:52-62 | The same, for any world folder whose only passes are deferred `short` in the `deferred` slot and composite `short + t`. |
| `BuildConfig.BlurHazardApplies` | build.py:19 | A world `world0` configured with deferred pass `Blur` and composite pass `BlurH` (a composite name of `build.py`) meets the conditions of the prefix hazard. |
| `BuildConfig.ShorterPatternWins` | buildsystem/transformer.py:52-62 | In a world whose composite pass `j` is named like deferred pass `i` followed by `t`, the line naming composite pass `j` becomes `world/<slot of i> t`, when no other pass pattern occurs in the line before that step or in its result. |
| `BuildConfig.World0Capitalised` | build.py:18-19 | Every world0 pass name starts with a capital letter, and `world0` has none. |
| `BuildConfig.FirstPassLine` | buildsystem/transformer.py:50-63 | With capitalised pass names and a capital-free world directory, the line naming the first deferred pass becomes `world/deferred` and nothing else. |
| `BuildConfig.World0FirstPassLine` | buildsystem/transformer.py:50-63 | In world0, the line `world0/Atmosphere` becomes `world0/deferred`, whatever the folder listing. |
| `BuildConfig.ConfiguredFirstPassLine` | buildsystem/transformer.py:50-63 | The same, for any world folder whose passes are configured from the two name lists. |

## Left out

- Filesystem I/O is not modelled: `iterdir`, `is_file`/`is_dir`, `exists`, `mkdir`, `copyfile`, `copytree`, `open` and file writes.
  - Listings are inputs, in the order the filesystem would yield them.
  - Effects are returned as a list of abstract actions.
  - `mkdir` is modelled as one `MakeDirs` action, taken whether or not the directory exists.
- The watchdog observer is not modelled: its thread, the join loop and `KeyboardInterrupt`. `on_modified` is modelled as one call on one event.
- Diagnostic prints are not modelled. They have no effect on the outputs.
- The handler never modifies `world_folders`. This holds by construction, since `Daemon.OnModified` is a pure function, so no lemma states it.
- `build.py` itself (argparse, output directory creation) is not modelled. Only its world0 name lists are used, in `BuildConfig`.
- The FreeType-dependent parts of the glyph encoder are not modelled: font loading, `render_char`, `render_text`, `convert_charset_to_glsl_defs` and argparse. They are foreign calls.
- A negative horizontal offset is not modelled; the offset is a `nat`. In Python a negative offset raises only when a lit pixel's shift count `(7 - i) * 8 + j + offset` is negative, as in row 7 with `j + offset < 0`. Otherwise the bit silently lands in the byte of a lower row.
- The glyph buffer is indexed by `width`, as the code does, not by the bitmap pitch.
- File reading is not modelled as byte decoding. Texts are already-decoded strings, with no universal-newline translation.
- `Transformer.CopyToDest`: a source path that is a key of `files` whose destination directory is missing is not modelled as an error. The model has no filesystem state.
- `Paths.Parts`: the `//` anchor that POSIX pathlib keeps for exactly two leading slashes is not modelled. One leading `/` anchor is modelled.
- `Paths.Parts`: only POSIX path rules are modelled. On Windows, pathlib also splits on `\`, has drive anchors, and compares components case-insensitively.
- `Daemon.OnModified`: only the `relative_to` error appears as `Raised`. In the source, failures of the properties rewrite (`buildsystem/daemon.py:42`) and of `copyfile` (`buildsystem/daemon.py:45`) also escape. The model has no filesystem, so those calls cannot fail in it.
- `Daemon.WorldEditAgreesWithBuild`: requires a world directory name without `/`, as the configuration gives it.
- `Daemon.WorldEditAgreesWithBuild`: states agreement with `copy_folder` only. Agreement with the full build holds only for directories starting with `world` (`Daemon.WorldEditInFullBuild`); for others, the two disagree (`Daemon.WorldEditOutsideFullBuild`).
- `TextEncGen.IdentifiersSpec`: the model's identifiers map is a Dafny `map`. It does not keep the insertion order of the Python dict, which only affects the order in which definitions would be written out.
- `TextEncGen.FormatUvec2RoundTrip` requires the word below 2^32 · 2^32 (`Word * Word`). That is 2^64, and `TextEncGen.WordPowers` proves the two equal.
- `RenderPasses.ScanComputes`: the listing-order statement about `fileOrder` requires a listing without repeated names. A directory listing never repeats a name.
- `Transformer.ShaderEntryRules`: the rules for a `world*` directory are stated over every configured world folder that is well formed, which every built folder is.
- The world0 scenarios (`BuildConfig`) fix the configuration of `build.py`. The general statements are the generic lemmas they rest on, such as `BuildConfig.ConfiguredFirstPassLine`, `BuildConfig.ShorterPatternWins` and `RenderPasses.MatchedDestination`.
