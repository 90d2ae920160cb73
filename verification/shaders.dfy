/**
 The shader restructurer: every `.shader` file of the input directory gets
 the suffix appended to the name it declares on its first line, and a
 directory named after the file (underscores becoming path separators) is
 created under the output root.
 */
module Shaders {
  import opened Common
  import opened Text
  import opened Fs

  /** `normalized_name`: `name.split('_').join("/")`, so `HDRP_Lit` becomes `HDRP/Lit`. */
  function NormalizedName(name: string): (r: string)
    ensures |r| == |name|
    ensures forall k :: 0 <= k < |name| ==> r[k] == (if name[k] == '_' then '/' else name[k])
  {
    JoinSplit(name, '_', '/');
    Join(Split(name, '_'), "/")
  }

  lemma NormalizedHasNoUnderscore(name: string)
    ensures '_' !in NormalizedName(name)
  {
    var r := NormalizedName(name);
    assert forall k :: 0 <= k < |r| ==> r[k] != '_';
  }

  lemma NormalizedKeepsPlainName(name: string)
    requires '_' !in name
    ensures NormalizedName(name) == name
  {
  }

  lemma NormalizedIdempotent(name: string)
    ensures NormalizedName(NormalizedName(name)) == NormalizedName(name)
  {
    NormalizedHasNoUnderscore(name);
    NormalizedKeepsPlainName(NormalizedName(name));
  }

  /**
   Splitting `Replace(s, c, d)` at `d` recovers the pieces of `s` between its
   `c`s, as long as `s` held no `d` to begin with.
   */
  lemma {:induction false} SplitReplace(s: string, c: char, d: char)
    requires d !in s
    ensures Split(Replace(s, c, d), d) == Split(s, c)
    decreases |s|
  {
    if c !in s {
      assert Replace(s, c, d) == s;
    } else {
      var i := IndexOf(s, c);
      var rest := s[i + 1..];
      assert s == s[..i] + [c] + rest;
      ReplaceAppend(s[..i] + [c], rest, c, d);
      ReplaceAppend(s[..i], [c], c, d);
      assert Replace(s[..i], c, d) == s[..i];
      assert Replace([c], c, d) == [d];
      assert d !in rest by {
        assert forall k :: 0 <= k < |rest| ==> rest[k] == s[i + 1 + k];
      }
      SplitAfter(s[..i], d, Replace(rest, c, d));
      SplitReplace(rest, c, d);
    }
  }

  /**
   The normalised name is the underscore-separated segments of the name
   joined by `/`: splitting it at `/` gives those segments back, provided the
   name held no `/` itself.
   */
  lemma NormalizedSegments(name: string)
    requires '/' !in name
    ensures Split(NormalizedName(name), '/') == Split(name, '_')
  {
    JoinSplit(name, '_', '/');
    SplitReplace(name, '_', '/');
  }

  /** Normalisation works segment by segment: `a_b` becomes `a/b` with each side normalised. */
  lemma NormalizedSplitsAtUnderscore(a: string, b: string)
    ensures NormalizedName(a + "_" + b) == NormalizedName(a) + "/" + NormalizedName(b)
  {
    var s := a + "_" + b;
    var na, nb := NormalizedName(a), NormalizedName(b);
    var l, r := NormalizedName(s), na + "/" + nb;
    assert |l| == |r|;
    forall k | 0 <= k < |l|
      ensures l[k] == r[k]
    {
      if k < |a| {
        assert s[k] == a[k] && r[k] == na[k];
      } else if k == |a| {
        assert s[k] == '_' && r[k] == '/';
      } else {
        assert s[k] == b[k - |a| - 1] && r[k] == nb[k - |a| - 1];
      }
    }
  }

  /** The example of `create_subfolders_and_add_suffix`: `HDRP_Lit` becomes `HDRP/Lit`. */
  lemma NormalizedExampleTwoSegments(hdrp: string, lit: string)
    requires hdrp == "HDRP" && lit == "Lit"
    ensures NormalizedName(hdrp + "_" + lit) == hdrp + "/" + lit
  {
    NormalizedSplitsAtUnderscore(hdrp, lit);
    NormalizedKeepsPlainName(hdrp);
    NormalizedKeepsPlainName(lit);
  }

  /** Three `_`-free segments joined by `_` come out joined by `/`. */
  lemma NormalizedThreeSegments(a: string, b: string, c: string)
    requires '_' !in a && '_' !in b && '_' !in c
    ensures NormalizedName(a + "_" + b + "_" + c) == a + "/" + b + "/" + c
  {
    NormalizedSplitsAtUnderscore(a + "_" + b, c);
    NormalizedSplitsAtUnderscore(a, b);
    NormalizedKeepsPlainName(a);
    NormalizedKeepsPlainName(b);
    NormalizedKeepsPlainName(c);
  }

  /** The rewritten first line: `Shader "<name><suffix>"`. */
  function Declaration(name: string, suffix: string): string
  {
    "Shader \"" + name + suffix + "\""
  }

  /** `for line in lines { output = format!("{output}\n{line}") }`. */
  function AppendLines(output: string, lines: seq<string>): string
    decreases |lines|
  {
    if |lines| == 0 then output
    else AppendLines(output + "\n" + lines[0], lines[1..])
  }

  /** Appending lines one by one is joining all of them with single newlines. */
  lemma {:induction false} AppendLinesIsJoin(output: string, lines: seq<string>)
    ensures AppendLines(output, lines) == Join([output] + lines, "\n")
    decreases |lines|
  {
    if |lines| > 0 {
      var head := output + "\n" + lines[0];
      AppendLinesIsJoin(head, lines[1..]);
      assert ([output] + lines)[1..] == lines;
      if |lines| == 1 {
        assert Join([head] + lines[1..], "\n") == head;
      } else {
        assert ([head] + lines[1..])[1..] == lines[1..];
        assert ([output] + lines)[1..][1..] == lines[1..];
        assert Join(lines, "\n") == lines[0] + "\n" + Join(lines[1..], "\n");
      }
    }
  }

  /** The name declared on a first line: the text between its first two `"` (or to the line end). */
  function DeclaredName(line: string): (r: string)
    requires '"' in line
    ensures '"' !in r
    ensures r <= line[IndexOf(line, '"') + 1..]
    ensures r == line[IndexOf(line, '"') + 1..] || line[IndexOf(line, '"') + 1 + |r|] == '"'
  {
    Before(line[IndexOf(line, '"') + 1..], '"')
  }

  /**
   `add_suffix` on the text of a shader file: fails with "File is empty" when
   the text has no line, with "Shader name not found" when the first line has
   no `"`, and otherwise yields `Shader "<name><suffix>"` followed by every
   later line, joined by single newlines with none at the end. Whatever
   follows the declared name on the first line is dropped.
   */
  function AddSuffix(text: string, suffix: string): (r: Result<string, Error>)
    ensures r == Err(FileEmpty) <==> text == ""
    ensures r == Err(ShaderNameNotFound) <==> text != "" && '"' !in Lines(text)[0]
    ensures r.Err? ==> r == Err(FileEmpty) || r == Err(ShaderNameNotFound)
    ensures r.Ok? ==>
      var ls := Lines(text);
      r.value == Join([Declaration(DeclaredName(ls[0]), suffix)] + ls[1..], "\n")
  {
    var lines := Lines(text);
    if |lines| == 0 then Err(FileEmpty)
    else
      match SecondField(lines[0], '"')
      case None => Err(ShaderNameNotFound)
      case Some(name) =>
        AppendLinesIsJoin(Declaration(name, suffix), lines[1..]);
        Ok(AppendLines(Declaration(name, suffix), lines[1..]))
  }

  /**
   Read back with `lines()`, the rewritten file has the declaration as its
   first line and the original later lines unchanged, so the same number of
   lines. This needs a suffix without newline, no later line but the last
   ending in `\r` (`lines()` would strip it) and a non-empty last line
   (an empty one leaves only a trailing newline).
   */
  lemma AddSuffixLines(text: string, suffix: string)
    requires AddSuffix(text, suffix).Ok?
    requires '\n' !in suffix
    requires forall k :: 1 <= k < |Lines(text)| - 1 ==> !EndsWithCr(Lines(text)[k])
    requires |Lines(text)| > 1 ==> Lines(text)[|Lines(text)| - 1] != ""
    ensures var ls := Lines(text);
      && Lines(AddSuffix(text, suffix).value) == [Declaration(DeclaredName(ls[0]), suffix)] + ls[1..]
      && |Lines(AddSuffix(text, suffix).value)| == |ls|
  {
    var ls := Lines(text);
    var decl := Declaration(DeclaredName(ls[0]), suffix);
    var out := [decl] + ls[1..];
    DeclarationIsOneLine(ls[0], suffix);
    assert forall k :: 1 <= k < |out| ==> out[k] == ls[k];
    LinesOfJoin(out);
  }

  /** The new declaration is one line, not ending in `\r`, when the suffix has no newline. */
  lemma DeclarationIsOneLine(line: string, suffix: string)
    requires '"' in line && '\n' !in line && '\n' !in suffix
    ensures '\n' !in Declaration(DeclaredName(line), suffix)
    ensures !EndsWithCr(Declaration(DeclaredName(line), suffix))
  {
    var decl := Declaration(DeclaredName(line), suffix);
    var n := DeclaredName(line);
    var tail := line[IndexOf(line, '"') + 1..];
    assert forall k :: 0 <= k < |n| ==> n[k] == tail[k];
    assert forall k :: 0 <= k < |tail| ==> tail[k] == line[IndexOf(line, '"') + 1 + k];
    assert decl == "Shader \"" + n + suffix + "\"";
  }

  /**
   The line count is kept whenever the suffix has no newline and the file
   does not end in an empty line. A later line that still ends in `\r` (from
   a `\r\r\n` ending) keeps its place but reads back without that `\r`.
   */
  lemma AddSuffixLineCount(text: string, suffix: string)
    requires AddSuffix(text, suffix).Ok?
    requires '\n' !in suffix
    requires |Lines(text)| > 1 ==> Lines(text)[|Lines(text)| - 1] != ""
    ensures var ls := Lines(text);
      var back := Lines(AddSuffix(text, suffix).value);
      && |back| == |ls|
      && back[0] == Declaration(DeclaredName(ls[0]), suffix)
      && (forall k :: 1 <= k < |ls| - 1 ==> back[k] == StripCr(ls[k]))
      && (|ls| > 1 ==> back[|ls| - 1] == ls[|ls| - 1])
  {
    var ls := Lines(text);
    var decl := Declaration(DeclaredName(ls[0]), suffix);
    var out := [decl] + ls[1..];
    DeclarationIsOneLine(ls[0], suffix);
    assert forall k :: 1 <= k < |out| ==> out[k] == ls[k];
    LinesOfJoinStripsCr(out);
    StripCrButLastAt(out);
  }

  /** `add_suffix` once the lines of the text and the declared name are known. */
  lemma AddSuffixFrom(text: string, suffix: string, ls: seq<string>, name: string)
    requires Lines(text) == ls && |ls| > 0
    requires SecondField(ls[0], '"') == Some(name)
    ensures AddSuffix(text, suffix) == Ok(Join([Declaration(name, suffix)] + ls[1..], "\n"))
  {
    AppendLinesIsJoin(Declaration(name, suffix), ls[1..]);
  }

  /** A first line `Shader "<name>"<rest>` holds no newline when its parts hold none. */
  lemma DeclarationLinePlain(name: string, restOfLine: string)
    requires '\n' !in name && '\n' !in restOfLine && !EndsWithCr(restOfLine)
    ensures '\n' !in "Shader \"" + name + "\"" + restOfLine
    ensures !EndsWithCr("Shader \"" + name + "\"" + restOfLine)
  {
    var first := "Shader \"" + name + "\"" + restOfLine;
    assert forall k :: 0 <= k < |first| && k >= 8 + |name| + 1 ==> first[k] == restOfLine[k - 9 - |name|];
    assert forall k :: 0 <= k < |first| && 8 <= k < 8 + |name| ==> first[k] == name[k - 8];
  }

  /** The name declared by `Shader "<name>"<rest>` is `<name>`. */
  lemma DeclarationLineName(name: string, restOfLine: string)
    requires '"' !in name
    ensures SecondField("Shader \"" + name + "\"" + restOfLine, '"') == Some(name)
  {
    var first := "Shader \"" + name + "\"" + restOfLine;
    assert first == "Shader " + ['"'] + (name + ['"'] + restOfLine);
    SplitAfter("Shader ", '"', name + ['"'] + restOfLine);
    SplitAfter(name, '"', restOfLine);
  }

  /**
   A file whose first line is `Shader "<name>"<rest of line>` and whose every
   line ends in a newline is rewritten to `Shader "<name><suffix>"` followed
   by the later lines, joined by newlines, the final newline gone.
   */
  lemma AddSuffixOfDeclaredFile(name: string, restOfLine: string, later: seq<string>, suffix: string)
    requires '"' !in name && '\n' !in name && '\n' !in restOfLine && !EndsWithCr(restOfLine)
    requires PlainLines(later)
    ensures AddSuffix(Unlines(["Shader \"" + name + "\"" + restOfLine] + later), suffix)
         == Ok(Join([Declaration(name, suffix)] + later, "\n"))
  {
    var first := "Shader \"" + name + "\"" + restOfLine;
    var ls := [first] + later;
    DeclarationLinePlain(name, restOfLine);
    LinesOfUnlines(ls);
    DeclarationLineName(name, restOfLine);
    AddSuffixFrom(Unlines(ls), suffix, ls, name);
    assert ls[1..] == later;
  }

  /**
   The example in the comment at the top of `add_suffix`: a shader whose
   first line is `Shader "Custom/LightningBoltShaderMesh" {`, with suffix
   `1`, starts with `Shader "Custom/LightningBoltShaderMesh1"` afterwards.
   The code drops the trailing ` {` that the comment keeps; every later line
   is kept.
   */
  lemma AddSuffixExample(name: string, rest: string, later: seq<string>)
    requires name == "Custom/LightningBoltShaderMesh" && rest == " {"
    requires PlainLines(later)
    ensures AddSuffix(Unlines(["Shader \"" + name + "\"" + rest] + later), "1")
         == Ok(Join(["Shader \"" + name + "1" + "\""] + later, "\n"))
  {
    assert '"' !in name && '\n' !in name by {
      assert forall k :: 0 <= k < |name| ==> name[k] != '"' && name[k] != '\n';
    }
    assert '\n' !in rest && !EndsWithCr(rest);
    AddSuffixOfDeclaredFile(name, rest, later, "1");
  }

  /**
   A shader file that ends in an empty line comes back one line shorter: the
   empty last line turns into a trailing newline, which `lines()` does not
   count. So the line count is kept only under the conditions of
   `AddSuffixLines`.
   */
  lemma AddSuffixDropsTrailingEmptyLine(name: string, restOfLine: string, later: seq<string>, suffix: string)
    requires '"' !in name && '\n' !in name && '\n' !in restOfLine && !EndsWithCr(restOfLine)
    requires '\n' !in suffix && PlainLines(later)
    requires |later| > 0 && later[|later| - 1] == ""
    ensures var text := Unlines(["Shader \"" + name + "\"" + restOfLine] + later);
      && AddSuffix(text, suffix).Ok?
      && |Lines(AddSuffix(text, suffix).value)| == |Lines(text)| - 1
  {
    var first := "Shader \"" + name + "\"" + restOfLine;
    AddSuffixOfDeclaredFile(name, restOfLine, later, suffix);
    DeclarationLinePlain(name, restOfLine);
    LinesOfUnlines([first] + later);
    RewriteEndingEmpty(name, later, suffix);
  }

  /** The rewritten text of a file ending in an empty line has as many lines as the file had after its first. */
  lemma RewriteEndingEmpty(name: string, later: seq<string>, suffix: string)
    requires '\n' !in name && '\n' !in suffix && PlainLines(later)
    requires |later| > 0 && later[|later| - 1] == ""
    ensures |Lines(Join([Declaration(name, suffix)] + later, "\n"))| == |later|
  {
    var decl := Declaration(name, suffix);
    var kept := [decl] + later[..|later| - 1];
    assert [decl] + later == kept + [""];
    assert PlainLines(kept) by {
      DeclarationPlain(name, suffix);
      assert forall k :: 1 <= k < |kept| ==> kept[k] == later[k - 1];
    }
    LinesOfJoinEndingEmpty(kept);
  }

  /** Plain lines joined with a final empty line read back as just those lines. */
  lemma LinesOfJoinEndingEmpty(ls: seq<string>)
    requires |ls| > 0 && PlainLines(ls)
    ensures Lines(Join(ls + [""], "\n")) == ls
  {
    JoinEmptyLast(ls);
    LinesOfUnlines(ls);
  }

  /** A declaration built from parts without newlines is one plain line. */
  lemma DeclarationPlain(name: string, suffix: string)
    requires '\n' !in name && '\n' !in suffix
    ensures '\n' !in Declaration(name, suffix) && !EndsWithCr(Declaration(name, suffix))
  {
    var d := Declaration(name, suffix);
    assert forall k :: 8 <= k < 8 + |name| ==> d[k] == name[k - 8];
    assert forall k :: 8 + |name| <= k < 8 + |name| + |suffix| ==> d[k] == suffix[k - 8 - |name|];
  }

  /** Joining lines whose last one is empty is the text with every line newline-terminated. */
  lemma {:induction false} JoinEmptyLast(ls: seq<string>)
    requires |ls| > 0
    ensures Join(ls + [""], "\n") == Unlines(ls)
    decreases |ls|
  {
    if |ls| == 1 {
      assert (ls + [""])[1..] == [""];
      assert ls[1..] == [];
    } else {
      assert (ls + [""])[1..] == ls[1..] + [""];
      JoinEmptyLast(ls[1..]);
    }
  }

  /** `path.is_dir()` entries are skipped; of the rest, only names ending in `.shader` count. */
  predicate IsShaderFile(e: Entry)
  {
    !IsDirPath(e.kind) && EndsWith(e.name, ".shader")
  }

  /** The output directory of a shader: the output root joined with the normalised base name. */
  function ShaderDir(outputDir: string, name: string): string
  {
    JoinPath(outputDir, NormalizedName(Stem(name)))
  }

  /**
   A shader whose base name is non-empty and does not start with `_` or `/`
   gets a directory inside the output root, ending in its normalised name.
   */
  lemma ShaderDirUnderRoot(outputDir: string, name: string)
    requires |Stem(name)| > 0 && name[0] != '_' && name[0] != '/'
    ensures outputDir <= ShaderDir(outputDir, name)
    ensures EndsWith(ShaderDir(outputDir, name), NormalizedName(Stem(name)))
  {
    var n := NormalizedName(Stem(name));
    assert n[0] == name[0];
    JoinPathUnder(outputDir, n);
  }

  /**
   A base name starting with `_` normalises to an absolute path, and
   `Path::join` then discards the output root: the directory is created at
   the file-system root, whatever the output root is.
   */
  lemma LeadingUnderscoreLeavesRoot(outputDir: string, name: string)
    requires |name| > 0 && name[0] == '_'
    ensures ShaderDir(outputDir, name) == NormalizedName(Stem(name))
    ensures ShaderDir(outputDir, name)[0] == '/'
  {
    var st := Stem(name);
    assert st[0] == '_';
  }

  /** The rewritten text of a shader entry, when it can be read and parsed. */
  function RewriteOf(e: Entry, suffix: string): Option<string>
  {
    if e.content.Some? && AddSuffix(e.content.value, suffix).Ok?
    then Some(AddSuffix(e.content.value, suffix).value)
    else None
  }

  /** The in-place write of a rewritten shader file. */
  function ShaderWrite(inputDir: string, suffix: string, e: Entry): Action
    requires RewriteOf(e, suffix).Some?
  {
    WriteFile(JoinPath(inputDir, e.name), RewriteOf(e, suffix).value)
  }

  function ShaderMkdir(outputDir: string, e: Entry): Action
  {
    CreateDirAll(ShaderDir(outputDir, e.name))
  }

  /** A shader entry whose rewrite, write and directory creation all go through. */
  predicate ShaderSucceeds(inputDir: string, outputDir: string, suffix: string, failing: set<Action>, e: Entry)
  {
    && RewriteOf(e, suffix).Some?
    && ShaderWrite(inputDir, suffix, e) !in failing
    && ShaderMkdir(outputDir, e) !in failing
  }

  /** The action an entry of the loop may contribute. */
  predicate ShaderAction(inputDir: string, outputDir: string, suffix: string, e: Entry, a: Action)
  {
    && IsShaderFile(e)
    && RewriteOf(e, suffix).Some?
    && (a == ShaderWrite(inputDir, suffix, e) || a == ShaderMkdir(outputDir, e))
  }

  /**
   One iteration of the loop in `create_subfolders_and_add_suffix`: a shader
   file is read, rewritten and written back, and only then is its output
   directory created; any failure on the way aborts the run.
   */
  function RestructureEntry(inputDir: string, outputDir: string, suffix: string, failing: set<Action>, e: Entry): (r: Run)
    ensures r.warnings == []
    ensures !IsShaderFile(e) ==> r == Idle
    ensures IsShaderFile(e) && e.content.None? ==>
      r.actions == [] && r.status == Aborted(ReadFailed(JoinPath(inputDir, e.name)))
    ensures IsShaderFile(e) && e.content.Some? && AddSuffix(e.content.value, suffix).Err? ==>
      r.actions == [] && r.status == Aborted(AddSuffix(e.content.value, suffix).error)
    ensures IsShaderFile(e) ==>
      (r.status.Completed? <==> ShaderSucceeds(inputDir, outputDir, suffix, failing, e))
    ensures r.status.Completed? && IsShaderFile(e) ==>
      r.actions == [ShaderWrite(inputDir, suffix, e), ShaderMkdir(outputDir, e)]
    ensures r.status.Aborted? && r.actions != [] ==>
      r.actions == [ShaderWrite(inputDir, suffix, e)] && r.status.error == ActionFailed(ShaderMkdir(outputDir, e))
    ensures IsShaderFile(e) && RewriteOf(e, suffix).Some? && ShaderWrite(inputDir, suffix, e) in failing ==>
      r.actions == [] && r.status == Aborted(ActionFailed(ShaderWrite(inputDir, suffix, e)))
    ensures IsShaderFile(e) && RewriteOf(e, suffix).Some? && ShaderWrite(inputDir, suffix, e) !in failing
              && ShaderMkdir(outputDir, e) in failing ==>
      r.actions == [ShaderWrite(inputDir, suffix, e)] && r.status == Aborted(ActionFailed(ShaderMkdir(outputDir, e)))
    ensures forall a :: a in r.actions ==> ShaderAction(inputDir, outputDir, suffix, e, a)
  {
    if IsDirPath(e.kind) || !EndsWith(e.name, ".shader") then Idle
    else
      var path := JoinPath(inputDir, e.name);
      match e.content
      case None => Run([], [], Aborted(ReadFailed(path)))
      case Some(text) =>
        match AddSuffix(text, suffix)
        case Err(err) => Run([], [], Aborted(err))
        case Ok(out) =>
          PerformBoth(WriteFile(path, out), CreateDirAll(ShaderDir(outputDir, e.name)), failing)
  }

  /** The loop body as a value, for `RunAll`. */
  function ShaderStep(inputDir: string, outputDir: string, suffix: string, failing: set<Action>): Entry -> Run
  {
    e => RestructureEntry(inputDir, outputDir, suffix, failing, e)
  }

  /**
   `create_subfolders_and_add_suffix` over a directory listing. It completes
   exactly when every shader file is rewritten and its directory created; it
   only ever writes shader files back and creates shader directories; when it
   completes, every shader file has both.
   */
  function Restructure(inputDir: string, outputDir: string, suffix: string, es: seq<Entry>, failing: set<Action>): (r: Run)
    ensures r.warnings == []
    ensures r.status.Completed? <==>
      forall i :: 0 <= i < |es| && IsShaderFile(es[i]) ==> ShaderSucceeds(inputDir, outputDir, suffix, failing, es[i])
    ensures forall a :: a in r.actions ==>
      exists i :: 0 <= i < |es| && ShaderAction(inputDir, outputDir, suffix, es[i], a)
    ensures r.status.Completed? ==> forall i :: 0 <= i < |es| && IsShaderFile(es[i]) ==>
      ShaderWrite(inputDir, suffix, es[i]) in r.actions && ShaderMkdir(outputDir, es[i]) in r.actions
  {
    var step := ShaderStep(inputDir, outputDir, suffix, failing);
    var r := RunAll(es, step);
    RunAllActions(es, step);
    forall a | a in r.actions
      ensures exists i :: 0 <= i < |es| && ShaderAction(inputDir, outputDir, suffix, es[i], a)
    {
      var i :| 0 <= i < |es| && a in step(es[i]).actions;
      assert step(es[i]) == RestructureEntry(inputDir, outputDir, suffix, failing, es[i]);
    }
    r
  }

  /** Only shader files matter: dropping every other entry from the listing changes nothing. */
  lemma RestructureIgnoresOtherEntries(inputDir: string, outputDir: string, suffix: string, es: seq<Entry>, failing: set<Action>)
    ensures Restructure(inputDir, outputDir, suffix, es, failing)
         == Restructure(inputDir, outputDir, suffix, Filter(es, IsShaderFile), failing)
  {
    RunAllFilter(es, ShaderStep(inputDir, outputDir, suffix, failing), IsShaderFile);
  }

  /** A fatal error (read, parse, write or mkdir) ends the loop: later entries are never looked at. */
  lemma RestructureStopsAtError(inputDir: string, outputDir: string, suffix: string, es: seq<Entry>, more: seq<Entry>, failing: set<Action>)
    requires Restructure(inputDir, outputDir, suffix, es, failing).status.Aborted?
    ensures Restructure(inputDir, outputDir, suffix, es + more, failing)
         == Restructure(inputDir, outputDir, suffix, es, failing)
  {
    RunAllStopsAtError(es, more, ShaderStep(inputDir, outputDir, suffix, failing));
  }

  /** A sidecar `X.shader.meta` (any name ending in `.meta`) is never taken for a shader. */
  lemma SidecarIsNotShader(e: Entry)
    requires EndsWith(e.name, ".meta")
    ensures !IsShaderFile(e)
  {
    assert e.name[|e.name| - 1] == 'a';
  }
}
