# lethalfixshaders in Dafny

A model of the asset-reorganising core of `lethalfixshaders`, a command-line
tool that prepares Unity shader and material assets. It has two phases.

- **Restructure** (`create_subfolders_and_add_suffix`). Every `.shader` file
  of the shader directory is rewritten in place: its first line becomes
  `Shader "<name><suffix>"`. Then a directory named after the shader is
  created under the output root, with `_` in the base name turned into `/`
  (`HDRP_Lit.shader` gets `<root>/HDRP/Lit`).
- **Route materials** (`copy_materials_to_shader`). First a guid table is
  built: every `.meta` sidecar in the shader directory that has a
  `guid: <g>` line maps `g` to its shader's output directory. Then every
  `.mat` file of the material directory names a shader guid on its
  `m_Shader` line, and the material and its `.mat.meta` sidecar are copied
  to the directory the table gives for that guid.

The model is functional.

- A directory listing is a `seq<Entry>`. Each entry has a name, a kind
  (file, directory, link to either, other) and the text `read_to_string`
  would return, or `None` when reading fails.
- Effects are returned, not performed. A `Run` is the list of actions that
  took effect (`WriteFile`, `CreateDirAll`, `Copy`), the warnings printed
  (`MissingGuid`, `UnknownGuid`) and a status, `Completed` or
  `Aborted(error)`.
- Which writes, directory creations and copies the file system refuses is
  a parameter, `failing: set<Action>`.
- The loop `while let Some(entry) = entries.next_entry().await?` is
  `Fs.RunAll`. Entries are handled in listing order, and the first fatal
  error ends the loop without undoing earlier effects.

Modules:

- `Common`: `Option` and `Result`.
- `Text`: the Rust string operations the code relies on.
  - `split`, `join` and `split(c).nth(1)`.
  - `str::lines()`: a line ends at `\n`, and one `\r` before that `\n` is
    dropped. An unterminated last line keeps a trailing `\r`, and a final
    `\n` does not start an empty line.
  - `trim()`, with Unicode's White_Space set.
  - `ends_with` and the first-line-with-prefix scan.
- `Fs`: entries, actions, warnings, errors, the loop, and Unix path rules.
  - `Path::join`: an absolute right side replaces the left one.
  - `Path::with_extension`: Rust's `file_stem` rule, under which `.mat` has
    no extension.
- `Shaders`, `Guid` and `Materials`: the three source files.
- `Pipeline`: how the two phases fit together.

Points where the behaviour of the code is easy to misread:

- Rust's `lines()` removes a trailing `\r` only from lines that end in
  `\n`; the `\r` of an unterminated last line stays, and so it does in
  `Text.Lines`.
- The rewrite keeps the line count whenever the suffix has no newline and
  the file does not end in an empty line (`Shaders.AddSuffixLineCount`).
  `Shaders.AddSuffixDropsTrailingEmptyLine` shows that a file ending in an
  empty line comes back one line shorter. A later line that still ends in
  `\r` (from a `\r\r\n` ending) keeps its place but reads back without
  that `\r`; `Shaders.AddSuffixLines` states the exact read-back when no
  such line exists.
- The rewritten first line is `Shader "<name><suffix>"`: everything after
  the closing quote of the name (typically ` {`) is dropped, although the
  example in the comment of `add_suffix` keeps it
  (`Shaders.AddSuffixExample`).
- The output directory is `output_root.join(normalized(base))`. Because
  `Path::join` is used, a base name starting with `_` normalises to an
  absolute path and lands outside the output root
  (`Shaders.LeadingUnderscoreLeavesRoot`).
- The `?` operator is modelled by `Fs.Then`: after an abort nothing more
  happens; otherwise the effects and warnings of the two parts
  concatenate. `Fs.Perform` is one file-system call that either takes
  effect or aborts the run with its failure. `Fs.PerformBoth` is the pair
  of calls that ends each loop body: the write and the directory creation
  of a shader, or the two copies of a material.
- There are three different entry filters, and each is modelled exactly:
  - restructure skips `path.is_dir()`, which follows links;
  - the guid table takes `entry.file_type().is_file()`, which does not
    follow links;
  - the router takes `path.is_file()`, which follows links.

## Model

| member | source | states |
|---|---|---|
| Text.JoinSplit | src/shaders.rs:6 | splitting at `c` and joining with `d` replaces every `c` by `d` and nothing else |
| Text.Split | src/shaders.rs:6 | `split(c)` yields at least one piece and no piece holds `c` |
| Text.JoinOfSplit | src/shaders.rs:6 | joining the pieces of `split(c)` with `c` gives back the text, so nothing is lost or reordered |
| Text.SecondField | src/shaders.rs:62-66 | `split('"').nth(1)` is absent exactly when the line has no `"`; otherwise it is the text after the first `"` up to the next one or the end |
| Text.Before | src/materials.rs:44 | `split(c).next()` is a prefix without `c` that is the whole string or is followed by `c` |
| Text.Lines | src/shaders.rs:60 | `lines()` gives no lines exactly for the empty text, and no line holds a newline |
| Text.LinesOfUnlines | src/guid.rs:41 | text whose every line is newline-terminated splits back into exactly those lines, empty ones included |
| Text.LinesOfJoinStripsCr | src/shaders.rs:69-73 | newline-free lines joined by single newlines, the last non-empty, read back as the same number of lines, each but the last with one trailing `\r` dropped |
| Text.LinesOfJoin | src/shaders.rs:69-73 | lines joined by single newlines split back into those lines when the last is non-empty and no earlier one ends in `\r` |
| Text.Trim | src/guid.rs:12 | `trim()` leaves text that neither starts nor ends with a White_Space character |
| Text.TrimSlice | src/guid.rs:12 | what `trim()` keeps is one contiguous slice of the text, and everything it removes before and after that slice is whitespace |
| Text.FirstWithPrefix | src/guid.rs:10-13 | the scan finds the first line with the prefix, and finds none exactly when no line has it |
| Text.FirstWithPrefixAppend | src/guid.rs:10-13 | lines appended after a match never change which line is found |
| Fs.RunAll | src/shaders.rs:20-50 | the directory loop completes exactly when every entry's step completes, and an abort is the abort of some entry |
| Fs.RunAllActions | src/shaders.rs:20-50 | the loop does only what its steps do, and when it completes it has done all of it |
| Fs.RunAllWarnings | src/materials.rs:16-68 | the loop prints only what its steps print, and when it completes it has printed all of it |
| Fs.ThenAssociative | src/shaders.rs:42-49 | how `?`-sequenced steps are grouped does not change the outcome: the same effects, warnings and status |
| Fs.PerformBoth | src/shaders.rs:42-49 | two `?`-sequenced file-system calls complete exactly when neither is refused; a refused first call aborts with nothing done and is the error; a refused second call aborts after the first took effect and is the error |
| Fs.RunAllAppend | src/shaders.rs:20-50 | handling `a + b` is handling `a`, then, if that completed, handling `b` |
| Fs.RunAllStopsAtError | src/shaders.rs:46-49 | after a fatal error no later entry is looked at |
| Fs.RunAllFilter | src/shaders.rs:22-37 | entries whose step does nothing can be dropped from the listing |
| Fs.JoinPath | src/shaders.rs:48 | `Path::join` puts one `/` between a directory and a relative name, and an absolute name replaces the directory |
| Fs.JoinPathUnder | src/materials.rs:59 | a relative name joined onto a directory gives a path that starts with the directory and ends with the name |
| Fs.MaterialSidecarName | src/materials.rs:64-65 | `WithExtension`, Rust's `with_extension("mat.meta")`, of `<stem>.mat` is `<stem>.mat.meta`, and of the bare `.mat` it is `.mat.mat.meta` |
| Fs.FileStem | src/materials.rs:64-65 | Rust's `file_stem` is the whole name exactly when the name is `..` or has no `.` after its first character; otherwise it is the non-empty prefix up to the last `.` |
| Fs.FileStemOfDotted | src/materials.rs:64-65 | the stem of `<stem>.<ext>`, for a non-empty `<stem>` and an `<ext>` without `.`, is `<stem>` (`..` excepted) |
| Fs.Stem | src/shaders.rs:38 | `split('.').next()` is a prefix of the name without `.` that is the whole name or is followed by `.` |
| Shaders.NormalizedName | src/shaders.rs:5-7 | the normalised name has the same length, with every `_` replaced by `/` and every other character in place |
| Shaders.NormalizedHasNoUnderscore | src/shaders.rs:5-7 | no `_` is left after normalising |
| Shaders.NormalizedKeepsPlainName | src/shaders.rs:5-7 | a name without `_` is returned unchanged |
| Shaders.NormalizedIdempotent | src/shaders.rs:5-7 | normalising twice is normalising once |
| Shaders.NormalizedSegments | src/shaders.rs:6 | for a name without `/`, the `/`-segments of the result are the `_`-segments of the name |
| Shaders.NormalizedSplitsAtUnderscore | src/shaders.rs:6 | `a_b` with `a` free of `_` normalises to `a/` followed by the normalised `b` |
| Shaders.NormalizedThreeSegments | src/shaders.rs:5-7 | three `_`-free segments joined by `_` normalise to the same segments joined by `/` |
| Shaders.NormalizedExampleTwoSegments | src/shaders.rs:14-16 | `HDRP_Lit` normalises to `HDRP/Lit` |
| Shaders.AppendLinesIsJoin | src/shaders.rs:69-73 | `AppendLines`, the loop appending `\n<line>` to the output joins the first line and the rest with single newlines |
| Shaders.DeclaredName | src/shaders.rs:62-66 | the shader name is the text after the first `"` of the line, up to the next `"` or the line's end |
| Shaders.AddSuffix | src/shaders.rs:55-78 | fails with "file is empty" exactly for the empty text, with "shader name not found" exactly when the first line has no `"`, and otherwise gives the declaration `Shader "<name><suffix>"` followed by the later lines, joined by newlines |
| Shaders.AddSuffixLines | src/shaders.rs:67-73 | under the stated conditions, the rewritten text reads back as the new declaration followed by the original later lines, with the same line count |
| Shaders.AddSuffixLineCount | src/shaders.rs:60-73 | with a newline-free suffix and no empty last line, the rewritten text reads back with the same line count: the new declaration, then each later line, one trailing `\r` dropped from all but the last |
| Shaders.AddSuffixOfDeclaredFile | src/shaders.rs:59-73 | a file starting `Shader "<name>"<rest>` is rewritten to `Shader "<name><suffix>"` with the later lines kept and the rest of line 1 dropped |
| Shaders.AddSuffixExample | src/shaders.rs:59-73 | the code turns `Shader "Custom/LightningBoltShaderMesh" {` with suffix `1` into `Shader "Custom/LightningBoltShaderMesh1"`, dropping the ` {` that the comment's example keeps, and keeps the later lines |
| Shaders.AddSuffixDropsTrailingEmptyLine | src/shaders.rs:60-73 | a file ending in an empty line comes back one line shorter |
| Shaders.ShaderDirUnderRoot | src/shaders.rs:48 | an ordinary shader's directory starts with the output root and ends with the normalised base name |
| Shaders.LeadingUnderscoreLeavesRoot | src/shaders.rs:48 | a base name starting with `_` gives an absolute directory, independent of the output root |
| Shaders.RestructureEntry | src/shaders.rs:22-49 | one shader: a non-shader does nothing; a read or parse failure aborts with no effect; otherwise the rewritten file is written and then the directory created, and the step completes exactly when both go through; a refused write aborts with nothing done, and a refused directory creation aborts after the write |
| Shaders.Restructure | src/shaders.rs:9-53 | the phase never warns, completes exactly when every shader file succeeds, only writes shader files and creates shader directories, and on completion has done both for every shader file |
| Shaders.RestructureIgnoresOtherEntries | src/shaders.rs:22-37 | directories, sidecars and other non-shader entries do not affect the phase |
| Shaders.RestructureStopsAtError | src/shaders.rs:42-49 | after a fatal error later entries are never looked at |
| Shaders.SidecarIsNotShader | src/shaders.rs:35-37 | a name ending in `.meta` is never taken for a shader |
| Guid.GetGuidSpec | src/guid.rs:9-17 | the guid is the trimmed remainder of the first line starting exactly with `guid: `, and there is none exactly when no line does |
| Guid.GetGuidIgnoresLaterLines | src/guid.rs:10-13 | lines after the first guid line do not affect the result |
| Guid.IndentedGuidIsIgnored | src/guid.rs:11 | an indented `  guid: x` line is not a guid line |
| Guid.GuidOnSecondLine | src/guid.rs:10-13 | a text whose second line is `guid: g`, after a non-guid line, declares `g` whatever follows |
| Guid.SampleMetaGuid | src/guid.rs:63-81 | the unit test's sidecar declares `e8c0f036827360544a6df55e8d2866c8` |
| Guid.AddMeta | src/guid.rs:28-51 | one entry: a non-sidecar is skipped, an unreadable sidecar aborts, a sidecar without a guid adds a warning, and otherwise the guid maps to the shader's target directory |
| Guid.BuildTable | src/guid.rs:19-55 | the build completes exactly when every regular `.meta` file is readable |
| Guid.BuildTableContents | src/guid.rs:46-51 | the table's keys are exactly the guids found, and each maps to the target of the last sidecar declaring it |
| Guid.BuildTableIgnoresOtherEntries | src/guid.rs:28-37 | only regular `.meta` files affect the table |
| Guid.MetaWithoutGuidIsSkipped | src/guid.rs:41-44 | a readable sidecar without a guid line adds a warning, leaves the table alone, and the build goes on |
| Guid.MetaTargetOfStem | src/guid.rs:46-49 | a sidecar `<stem>.<ext>` targets the output root joined with the normalised stem |
| Guid.SingleMetaOfStem | src/guid.rs:46-51 | one readable sidecar `<stem>.<ext>` declaring `g`, with no `.` in the stem, completes the build with exactly `g` mapped to the output root joined with the normalised stem |
| Guid.HdrpLitExample | src/guid.rs:46-51 | a sidecar `HDRP_Lit.shader.meta` declaring `g` gives the table `g` → root joined with `HDRP/Lit` |
| Materials.ShaderRef | src/materials.rs:40-47 | the material's guid is the text after the `m_Shader` prefix on the first line that has it, up to the first comma or the line's end, and there is none exactly when no line has the prefix |
| Materials.ShaderRefIgnoresLaterLines | src/materials.rs:42-46 | only the first `m_Shader` line is used |
| Materials.ShaderRefOfLine | src/materials.rs:43-44 | a line `  m_Shader: {fileID: 4800000, guid: g,…` after non-matching lines names `g` |
| Materials.SidecarIsNotMaterial | src/materials.rs:32-34 | a name ending in `.meta` is never taken for a material |
| Materials.RouteMaterial | src/materials.rs:18-67 | one material: a non-material does nothing; an unreadable one aborts; one without a guid, or with a guid the table lacks, only warns; otherwise the material and then its sidecar are copied into the table's directory; a refused material copy aborts with nothing done, and a refused sidecar copy aborts after the material copy |
| Materials.RouteMaterials | src/materials.rs:16-68 | the loop completes exactly when every material is read and every routed one copied; it only copies routed materials and their sidecars and only warns about skipped ones; on completion every routed material has both copies and every skipped one its warning |
| Materials.RouteMaterialsTargetsTable | src/materials.rs:54-62 | every copy is of a listed material, or of its `.mat.meta` sidecar, into the table's directory for the guid that material names |
| Materials.RouteMaterialsIgnoresOtherEntries | src/materials.rs:18-34 | non-materials do not affect routing |
| Materials.RouteMaterialsStopsAtError | src/materials.rs:62-67 | a failed read or copy ends the loop, and no later material is processed |
| Materials.SkippedMaterialContinues | src/materials.rs:49-57 | a skipped material adds its warning and no copy, and the loop goes on |
| Materials.CopyMaterialsToShader | src/materials.rs:5-71 | the table is built first, and a failure there aborts before any material is looked at; otherwise the table's warnings come first, then the loop's |
| Materials.CopiesFollowGuids | src/materials.rs:54-67 | every copy goes to the directory of the last sidecar declaring the guid the material names |
| Pipeline.SameSidecarsSameCopies | src/guid.rs:28-37 | listings of the shader directory with the same sidecars route materials alike |
| Pipeline.CopyLandsInCreatedDirectory | src/main.rs:87-95 | a copy of material `m` or its sidecar that follows a guid whose sidecar has a shader beside it goes directly into a directory the restructure phase created, under the material's own name or its `.mat.meta` name |
| Pipeline.AllCopiesLandInCreatedDirectories | src/main.rs:87-95 | the same for every copy of a run: each copies one of the materials, or its sidecar, directly into a created directory |
| Pipeline.CopiesLandInCreatedDirectories | src/main.rs:87-95 | when the restructure phase completed and every sidecar with a guid has a shader of the same base name, every copy of the material phase copies one of the listed materials, or its sidecar, directly into a directory the restructure phase created |
| Pipeline.LinkedEntries | src/guid.rs:28-30 | the guid table never takes a link to a file, while the restructure (`path.is_dir()`) and the router (`path.is_file()`) take one by its name alone; an entry that is neither file nor directory can only be a shader; a directory or a link to one is never taken |
| Pipeline.FiltersAreDisjoint | src/shaders.rs:35-37 | no entry is taken both as a shader and as a sidecar or a material, nor both as a sidecar and a material |

## Left out

- `src/main.rs`: argument parsing, the style table, the version string, the existence checks, the default output path and the creation of the output root. Its order of the two phases appears only in the `Pipeline` lemmas.
- Listing errors (`read_dir`, `next_entry`, and `file_type` in the guid table). A listing is given as a sequence, so these cannot fail.
- Directory order. It is whatever the file system returns, and the model takes it as the order of the sequence.
- File names without a file name or that are not UTF-8. These are skipped in two places and `unwrap`ped in the guid table. Names are Dafny strings here.
- The `else { continue }` after `split('.').next()` in the restructure loop. `split` always yields a first part, so the branch cannot be taken.
- Asynchronous execution, and the text of error and warning messages. Errors and warnings are constructors that carry the path, action or guid concerned.
- Windows path rules. `JoinPath` and `WithExtension` follow Unix `Path` semantics on names that are strings.
- Shaders.AddSuffixLines: states that the later lines read back unchanged only when no later line but the last ends in `\r`, because `lines()` strips such a `\r`; `Shaders.AddSuffixLineCount` covers that case, and the count is lost only for a suffix with a newline or a file ending in an empty line (`Shaders.AddSuffixDropsTrailingEmptyLine`).
- That the guid table is never modified during routing needs no lemma. `RouteMaterials` receives the table as a value, and every step reads the same map.
