/**
 The guid table builder: every `.meta` sidecar in the shader directory that
 declares a `guid: ` line maps that guid to the output directory its shader
 will occupy.
 */
module Guid {
  import opened Common
  import opened Text
  import opened Fs
  import opened Shaders

  const GuidPrefix := "guid: "

  /**
   `get_guid`: the first line that starts exactly with `guid: ` decides, and
   its remainder, trimmed, is the guid; with no such line there is none.
   */
  function GetGuid(lines: seq<string>): Option<string>
  {
    match FirstWithPrefix(lines, GuidPrefix)
    case None => None
    case Some(i) => Some(Trim(lines[i][|GuidPrefix|..]))
  }

  /**
   There is no guid exactly when no line starts with `guid: `; otherwise the
   guid is the trimmed remainder of the first line that does.
   */
  lemma GetGuidSpec(lines: seq<string>)
    ensures GetGuid(lines).None? <==> forall j :: 0 <= j < |lines| ==> !(GuidPrefix <= lines[j])
    ensures GetGuid(lines).Some? ==>
      exists i :: IsFirstMatch(lines, GuidPrefix, i) && GetGuid(lines).value == Trim(lines[i][|GuidPrefix|..])
  {
  }

  /** Lines after the first `guid: ` line do not affect the result. */
  lemma GetGuidIgnoresLaterLines(lines: seq<string>, more: seq<string>)
    requires GetGuid(lines).Some?
    ensures GetGuid(lines + more) == GetGuid(lines)
  {
    FirstWithPrefixAppend(lines, more, GuidPrefix);
  }

  /** An indented `  guid: x` is not a guid line: the prefix must start the line. */
  lemma IndentedGuidIsIgnored(line: string)
    requires |line| > 0 && line[0] == ' '
    ensures GetGuid([line]) == None
  {
    assert !(GuidPrefix <= line) by {
      assert GuidPrefix[0] == 'g';
    }
  }

  /** The guid declared by the sidecar in the repository's unit test. */
  const SampleGuid := "e8c0f036827360544a6df55e8d2866c8"

  /** The lines of the metadata sidecar in the repository's unit test. */
  const SampleMetaLines: seq<string> := [
    "fileFormatVersion: 2",
    GuidPrefix + SampleGuid,
    "timeCreated: 1702147913",
    "licenseType: Free",
    "ShaderImporter:",
    "  externalObjects: {}",
    "  defaultTextures: []",
    "  nonModifiableTextures: []",
    "  userData:",
    "  assetBundleName:",
    "  assetBundleVariant:"
  ]

  /** The unit test: the sample sidecar, every line newline-terminated, declares `e8c0f036827360544a6df55e8d2866c8`. */
  lemma SampleMetaGuid()
    ensures GetGuid(Lines(Unlines(SampleMetaLines))) == Some(SampleGuid)
  {
    var ls := SampleMetaLines;
    assert '\n' !in ls[0] && StripCr(ls[0]) == ls[0] && !(GuidPrefix <= ls[0]) by {
      assert ls[0][0] == 'f';
    }
    var g := SampleGuid;
    assert |g| > 0 && '\n' !in g && !HasLeadingSpace(g) && !HasTrailingSpace(g) by {
      assert g[0] == 'e' && g[|g| - 1] == '8';
    }
    assert ls == [ls[0], GuidPrefix + SampleGuid] + ls[2..];
    GuidOnSecondLine(ls[0], SampleGuid, ls[2..]);
  }

  /**
   A text whose first line is not a guid line and whose second line is
   `guid: g`, with `g` a single word, declares `g` whatever follows.
   */
  lemma GuidOnSecondLine(l0: string, g: string, more: seq<string>)
    requires '\n' !in l0 && StripCr(l0) == l0 && !(GuidPrefix <= l0)
    requires |g| > 0 && '\n' !in g && !HasLeadingSpace(g) && !HasTrailingSpace(g)
    ensures GetGuid(Lines(Unlines([l0, GuidPrefix + g] + more))) == Some(g)
  {
    var l1 := GuidPrefix + g;
    var ls := [l0, l1] + more;
    var rest := Unlines(more);
    assert Unlines(ls) == l0 + "\n" + (l1 + "\n" + rest) by {
      assert ls[1..][1..] == more;
    }
    GuidLine(g);
    GetGuidOnSecondLine(l0, l1);
    LinesTwo(l0, l1, rest);
    GetGuidIgnoresLaterLines([l0, l1], Lines(rest));
  }

  /** A line `guid: g`, with `g` a single word, is a plain line whose guid is `g`. */
  lemma GuidLine(g: string)
    requires |g| > 0 && '\n' !in g && !HasLeadingSpace(g) && !HasTrailingSpace(g)
    ensures var l := GuidPrefix + g;
      '\n' !in l && StripCr(l) == l && GuidPrefix <= l && Trim(l[|GuidPrefix|..]) == g
  {
    var l := GuidPrefix + g;
    assert l[|GuidPrefix|..] == g;
    assert l[|l| - 1] == g[|g| - 1];
    TrimKeepsTrimmed(g);
  }

  /** With no guid line first, the guid line second decides. */
  lemma GetGuidOnSecondLine(l0: string, l1: string)
    requires !(GuidPrefix <= l0) && GuidPrefix <= l1
    ensures GetGuid([l0, l1]) == Some(Trim(l1[|GuidPrefix|..]))
  {
    assert FirstWithPrefix([l0, l1], GuidPrefix) == Some(1);
  }

  /** `entry.file_type().is_file()` (links are not followed) and a name ending in `.meta`. */
  predicate IsMetaFile(e: Entry)
  {
    IsRegularFile(e.kind) && EndsWith(e.name, ".meta")
  }

  /** The guid an entry contributes to the table, if any. */
  function MetaGuid(e: Entry): Option<string>
  {
    if IsMetaFile(e) && e.content.Some? then GetGuid(Lines(e.content.value)) else None
  }

  /** Where the shader of a sidecar goes: the output root joined with its normalised base name. */
  function MetaTarget(outputRoot: string, name: string): string
  {
    ShaderDir(outputRoot, name)
  }

  /** The table being built, the warnings printed so far, and whether the build is still going. */
  datatype TableRun = TableRun(table: map<string, string>, warnings: seq<Warning>, status: Status)

  /** One iteration of the loop in `build_guid_table`. */
  function AddMeta(shaderDir: string, outputRoot: string, acc: TableRun, e: Entry): (r: TableRun)
    ensures !IsMetaFile(e) ==> r == acc
    ensures IsMetaFile(e) && e.content.None? ==>
      r == acc.(status := Aborted(ReadFailed(JoinPath(shaderDir, e.name))))
    ensures IsMetaFile(e) && e.content.Some? && MetaGuid(e).None? ==>
      r == acc.(warnings := acc.warnings + [MissingGuid(e.name)])
    ensures MetaGuid(e).Some? ==>
      r == acc.(table := acc.table[MetaGuid(e).value := MetaTarget(outputRoot, e.name)])
  {
    if !IsRegularFile(e.kind) || !EndsWith(e.name, ".meta") then acc
    else
      match e.content
      case None => acc.(status := Aborted(ReadFailed(JoinPath(shaderDir, e.name))))
      case Some(text) =>
        match GetGuid(Lines(text))
        case None => acc.(warnings := acc.warnings + [MissingGuid(e.name)])
        case Some(guid) => acc.(table := acc.table[guid := MetaTarget(outputRoot, e.name)])
  }

  /**
   `build_guid_table` over a listing of the shader directory: a fold over the
   entries in listing order that stops at the first unreadable sidecar.
   */
  function BuildTable(shaderDir: string, outputRoot: string, es: seq<Entry>): (t: TableRun)
    ensures t.status.Completed? <==> forall i :: 0 <= i < |es| && IsMetaFile(es[i]) ==> es[i].content.Some?
    decreases |es|
  {
    if |es| == 0 then TableRun(map[], [], Completed)
    else
      var last := es[|es| - 1];
      var prev := BuildTable(shaderDir, outputRoot, es[..|es| - 1]);
      assert forall i :: 0 <= i < |es| - 1 ==> es[..|es| - 1][i] == es[i];
      if prev.status.Aborted? then prev else AddMeta(shaderDir, outputRoot, prev, last)
  }

  /** The build of a listing with one more entry at the end. */
  lemma BuildTableSnoc(shaderDir: string, outputRoot: string, es: seq<Entry>, e: Entry)
    ensures var prev := BuildTable(shaderDir, outputRoot, es);
      BuildTable(shaderDir, outputRoot, es + [e])
        == if prev.status.Aborted? then prev else AddMeta(shaderDir, outputRoot, prev, e)
  {
    assert (es + [e])[..|es|] == es;
  }

  /** `i` is the last entry of `es` that declares guid `g`. */
  predicate IsLastWithGuid(es: seq<Entry>, g: string, i: int)
  {
    && 0 <= i < |es|
    && MetaGuid(es[i]) == Some(g)
    && forall j :: i < j < |es| ==> MetaGuid(es[j]) != Some(g)
  }

  /** The last declaration of `g` stays the last when an entry without `g` is appended. */
  lemma LastWithGuidExtends(es: seq<Entry>, e: Entry, g: string, i: int)
    requires IsLastWithGuid(es, g, i) && MetaGuid(e) != Some(g)
    ensures IsLastWithGuid(es + [e], g, i)
    ensures (es + [e])[i] == es[i]
  {
    var es' := es + [e];
    forall j | i < j < |es'|
      ensures MetaGuid(es'[j]) != Some(g)
    {
      if j < |es| {
        assert es'[j] == es[j];
      } else {
        assert es'[j] == e;
      }
    }
    assert es'[i] == es[i];
  }

  /**
   The finished table holds exactly the guids found, and each maps to the
   target of the last sidecar in listing order that declares it: duplicate
   guids are resolved by last write wins.
   */
  lemma {:induction false} BuildTableContents(shaderDir: string, outputRoot: string, es: seq<Entry>)
    requires BuildTable(shaderDir, outputRoot, es).status.Completed?
    ensures var t := BuildTable(shaderDir, outputRoot, es).table;
      forall g :: g in t <==> exists i :: 0 <= i < |es| && MetaGuid(es[i]) == Some(g)
    ensures var t := BuildTable(shaderDir, outputRoot, es).table;
      forall g :: g in t ==> exists i :: IsLastWithGuid(es, g, i) && t[g] == MetaTarget(outputRoot, es[i].name)
    decreases |es|
  {
    if |es| > 0 {
      var n := |es|;
      var p := es[..n - 1];
      var e := es[n - 1];
      assert es == p + [e];
      BuildTableSnoc(shaderDir, outputRoot, p, e);
      var prev := BuildTable(shaderDir, outputRoot, p);
      var t := BuildTable(shaderDir, outputRoot, es).table;
      BuildTableContents(shaderDir, outputRoot, p);
      assert forall i :: 0 <= i < n - 1 ==> p[i] == es[i];
      forall g
        ensures (exists i :: 0 <= i < |es| && MetaGuid(es[i]) == Some(g)) <==>
          (exists i :: 0 <= i < |p| && MetaGuid(p[i]) == Some(g)) || MetaGuid(e) == Some(g)
      {
        if i :| 0 <= i < |es| && MetaGuid(es[i]) == Some(g) {
          if i < n - 1 { assert MetaGuid(p[i]) == Some(g); }
        }
      }
      if MetaGuid(e).None? {
        assert t == prev.table;
        forall g | g in t
          ensures exists i :: IsLastWithGuid(es, g, i) && t[g] == MetaTarget(outputRoot, es[i].name)
        {
          var i :| IsLastWithGuid(p, g, i) && prev.table[g] == MetaTarget(outputRoot, p[i].name);
          LastWithGuidExtends(p, e, g, i);
        }
      } else {
        var h := MetaGuid(e).value;
        assert t == prev.table[h := MetaTarget(outputRoot, e.name)];
        assert IsLastWithGuid(es, h, n - 1);
        forall g | g in t
          ensures exists i :: IsLastWithGuid(es, g, i) && t[g] == MetaTarget(outputRoot, es[i].name)
        {
          if g != h {
            var i :| IsLastWithGuid(p, g, i) && prev.table[g] == MetaTarget(outputRoot, p[i].name);
            LastWithGuidExtends(p, e, g, i);
          }
        }
      }
    }
  }

  /** Only regular `.meta` files matter: dropping every other entry changes nothing. */
  lemma {:induction false} BuildTableIgnoresOtherEntries(shaderDir: string, outputRoot: string, es: seq<Entry>)
    ensures BuildTable(shaderDir, outputRoot, es) == BuildTable(shaderDir, outputRoot, Filter(es, IsMetaFile))
    decreases |es|
  {
    if |es| > 0 {
      var n := |es|;
      var p := es[..n - 1];
      var e := es[n - 1];
      assert es == p + [e];
      FilterSnoc(p, e, IsMetaFile);
      BuildTableIgnoresOtherEntries(shaderDir, outputRoot, p);
      BuildTableSnoc(shaderDir, outputRoot, p, e);
      var fp := Filter(p, IsMetaFile);
      if IsMetaFile(e) {
        assert Filter(es, IsMetaFile) == fp + [e];
        BuildTableSnoc(shaderDir, outputRoot, fp, e);
      } else {
        assert Filter(es, IsMetaFile) == fp;
        var prev := BuildTable(shaderDir, outputRoot, p);
        assert AddMeta(shaderDir, outputRoot, prev, e) == prev;
      }
    }
  }

  /** A readable sidecar without a guid line adds a warning, not an entry, and the build goes on. */
  lemma MetaWithoutGuidIsSkipped(shaderDir: string, outputRoot: string, es: seq<Entry>, e: Entry)
    requires BuildTable(shaderDir, outputRoot, es).status.Completed?
    requires IsMetaFile(e) && e.content.Some? && GetGuid(Lines(e.content.value)).None?
    ensures var before := BuildTable(shaderDir, outputRoot, es);
      BuildTable(shaderDir, outputRoot, es + [e])
        == TableRun(before.table, before.warnings + [MissingGuid(e.name)], Completed)
  {
    assert (es + [e])[..|es|] == es;
  }

  /** A sidecar `<stem>.<extension>` sends its shader to the output root joined with the normalised stem. */
  lemma MetaTargetOfStem(outputRoot: string, stem: string, ext: string)
    requires outputRoot != "" && outputRoot[|outputRoot| - 1] != '/'
    requires '.' !in stem && (stem == "" || (stem[0] != '_' && stem[0] != '/'))
    ensures MetaTarget(outputRoot, stem + "." + ext) == outputRoot + "/" + NormalizedName(stem)
  {
    BeforeAfter(stem, '.', ext);
    assert stem + "." + ext == stem + ['.'] + ext;
    var n := NormalizedName(stem);
    assert n == "" || n[0] == stem[0];
  }

  /** A single readable sidecar declaring `g` makes a one-entry table. */
  lemma SingleMeta(shaderDir: string, outputRoot: string, e: Entry, g: string)
    requires MetaGuid(e) == Some(g)
    ensures var t := BuildTable(shaderDir, outputRoot, [e]);
      t.status.Completed? && t.table == map[g := MetaTarget(outputRoot, e.name)]
  {
    assert [e][..0] == [];
  }

  /**
   A single readable sidecar `<stem>.<ext>` declaring `g`, with no `.` in the
   stem, maps `g` to the output root joined with the normalised stem.
   */
  lemma SingleMetaOfStem(shaderDir: string, outputRoot: string, stem: string, ext: string, text: string, g: string)
    requires '.' !in stem && EndsWith(ext, ".meta")
    requires GetGuid(Lines(text)) == Some(g)
    ensures var t := BuildTable(shaderDir, outputRoot, [Entry(stem + "." + ext, File, Some(text))]);
      t.status.Completed? && t.table == map[g := JoinPath(outputRoot, NormalizedName(stem))]
  {
    var e := Entry(stem + "." + ext, File, Some(text));
    EndsWithPrepend(stem + ".", ext, ".meta");
    BeforeAfter(stem, '.', ext);
    assert e.name == stem + ['.'] + ext;
    SingleMeta(shaderDir, outputRoot, e, g);
  }

  /**
   The example in the comment of `create_subfolders_and_add_suffix`, seen from
   the table: a sidecar `HDRP_Lit.shader.meta` declaring guid `g`
   maps `g` to the output root joined with `HDRP/Lit`.
   */
  lemma HdrpLitExample(shaderDir: string, outputRoot: string, hdrp: string, lit: string, ext: string,
                       text: string, g: string)
    requires hdrp == "HDRP" && lit == "Lit" && ext == "shader.meta"
    requires GetGuid(Lines(text)) == Some(g)
    ensures var t := BuildTable(shaderDir, outputRoot, [Entry(hdrp + "_" + lit + "." + ext, File, Some(text))]);
      t.status.Completed? && t.table == map[g := JoinPath(outputRoot, hdrp + "/" + lit)]
  {
    assert '.' !in hdrp + "_" + lit by {
      assert '.' !in hdrp && '.' !in lit;
    }
    assert EndsWith(ext, ".meta");
    SingleMetaOfStem(shaderDir, outputRoot, hdrp + "_" + lit, ext, text, g);
    NormalizedExampleTwoSegments(hdrp, lit);
  }
}
