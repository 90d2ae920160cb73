/**
 The material router: every `.mat` file in the material directory names the
 guid of its shader on an `m_Shader` line; the guid table says which output
 directory that shader went to, and the material and its `.mat.meta` sidecar
 are copied there.
 */
module Materials {
  import opened Common
  import opened Text
  import opened Fs
  import opened Guid

  /** The exact start of the line that names a material's shader. */
  const ShaderRefPrefix := "  m_Shader: {fileID: 4800000, guid: "

  /**
   The scan in `copy_materials_to_shader`: the first line that starts with
   the `m_Shader` prefix decides, and the guid is its remainder up to the
   first comma (or the whole remainder when there is none).
   */
  function ShaderRef(lines: seq<string>): (r: Option<string>)
    ensures r.None? <==> forall j :: 0 <= j < |lines| ==> !(ShaderRefPrefix <= lines[j])
    ensures r.Some? ==> exists i :: (
      && IsFirstMatch(lines, ShaderRefPrefix, i)
      && r.value <= lines[i][|ShaderRefPrefix|..]
      && (r.value == lines[i][|ShaderRefPrefix|..] || lines[i][|ShaderRefPrefix| + |r.value|] == ','))
    ensures r.Some? ==> ',' !in r.value
  {
    match FirstWithPrefix(lines, ShaderRefPrefix)
    case None => None
    case Some(i) => Some(Before(lines[i][|ShaderRefPrefix|..], ','))
  }

  /** Lines after the first `m_Shader` line do not affect the result. */
  lemma ShaderRefIgnoresLaterLines(lines: seq<string>, more: seq<string>)
    requires ShaderRef(lines).Some?
    ensures ShaderRef(lines + more) == ShaderRef(lines)
  {
    FirstWithPrefixAppend(lines, more, ShaderRefPrefix);
  }

  /**
   A Unity material line `  m_Shader: {fileID: 4800000, guid: g, type: 3}`
   (any text after the comma), after lines that do not start with the
   prefix, names guid `g`.
   */
  lemma ShaderRefOfLine(before: seq<string>, g: string, tail: string, after: seq<string>)
    requires forall j :: 0 <= j < |before| ==> !(ShaderRefPrefix <= before[j])
    requires ',' !in g
    ensures ShaderRef(before + [ShaderRefPrefix + g + "," + tail] + after) == Some(g)
  {
    var line := ShaderRefPrefix + g + "," + tail;
    var ls := before + [line] + after;
    assert line[..|ShaderRefPrefix|] == ShaderRefPrefix;
    assert ls[|before|] == line;
    assert forall j :: 0 <= j < |before| ==> ls[j] == before[j];
    assert IsFirstMatch(ls, ShaderRefPrefix, |before|);
    FirstMatchUnique(ls, ShaderRefPrefix, FirstWithPrefix(ls, ShaderRefPrefix).value, |before|);
    assert line[|ShaderRefPrefix|..] == g + [','] + tail;
    BeforeAfter(g, ',', tail);
  }

  /** `path.is_file()` (links are followed) and a name ending in `.mat`. */
  predicate IsMaterial(e: Entry)
  {
    IsFilePath(e.kind) && EndsWith(e.name, ".mat")
  }

  /** A sidecar `X.mat.meta` (any name ending in `.meta`) is never taken for a material. */
  lemma SidecarIsNotMaterial(e: Entry)
    requires EndsWith(e.name, ".meta")
    ensures !IsMaterial(e)
  {
    assert e.name[|e.name| - 1] == 'a';
    assert e.name[|e.name| - 2] == 't';
  }

  /** The shader guid a material names, when it is a readable material that names one. */
  function MaterialGuid(e: Entry): Option<string>
  {
    if IsMaterial(e) && e.content.Some? then ShaderRef(Lines(e.content.value)) else None
  }

  /** The directory a material is routed to: the table's entry for the guid it names. */
  function MaterialTarget(table: map<string, string>, e: Entry): Option<string>
  {
    match MaterialGuid(e)
    case Some(g) => if g in table then Some(table[g]) else None
    case None => None
  }

  /** The copy of the material file itself into directory `dir`. */
  function MaterialCopy(materialDir: string, dir: string, name: string): Action
  {
    Copy(JoinPath(materialDir, name), JoinPath(dir, name))
  }

  /**
   The copy of the material's sidecar: both ends are the material's paths
   with the extension replaced by `mat.meta`.
   */
  function SidecarCopy(materialDir: string, dir: string, name: string): Action
  {
    var sidecar := WithExtension(name, "mat.meta");
    Copy(JoinPath(materialDir, sidecar), JoinPath(dir, sidecar))
  }

  /** Action `a` copies the material called `name`, or its sidecar, into `dir`. */
  predicate CopiesInto(materialDir: string, dir: string, name: string, a: Action)
  {
    a == MaterialCopy(materialDir, dir, name) || a == SidecarCopy(materialDir, dir, name)
  }

  /** The warning a readable material that is not routed prints. */
  function SkipWarning(table: map<string, string>, e: Entry): Option<Warning>
  {
    if !IsMaterial(e) || e.content.None? then None
    else match MaterialGuid(e)
      case None => Some(MissingGuid(e.name))
      case Some(g) => if g in table then None else Some(UnknownGuid(g))
  }

  /** A material entry that is read and, when routed, copied with its sidecar. */
  predicate MaterialSucceeds(materialDir: string, table: map<string, string>, failing: set<Action>, e: Entry)
  {
    && e.content.Some?
    && (MaterialTarget(table, e).Some? ==>
          && MaterialCopy(materialDir, MaterialTarget(table, e).value, e.name) !in failing
          && SidecarCopy(materialDir, MaterialTarget(table, e).value, e.name) !in failing)
  }

  /** The copies an entry of the loop may contribute: its own two, into its own directory. */
  predicate MaterialAction(materialDir: string, table: map<string, string>, e: Entry, a: Action)
  {
    && MaterialTarget(table, e).Some?
    && (a == MaterialCopy(materialDir, MaterialTarget(table, e).value, e.name)
        || a == SidecarCopy(materialDir, MaterialTarget(table, e).value, e.name))
  }

  /**
   One iteration of the loop in `copy_materials_to_shader`: a material is
   read; without a shader guid, or with one the table does not know, it is
   skipped with a warning; otherwise the material is copied and then its
   sidecar. A read or copy failure aborts the run.
   */
  function RouteMaterial(materialDir: string, table: map<string, string>, failing: set<Action>, e: Entry): (r: Run)
    ensures !IsMaterial(e) ==> r == Idle
    ensures IsMaterial(e) && e.content.None? ==>
      r == Run([], [], Aborted(ReadFailed(JoinPath(materialDir, e.name))))
    ensures SkipWarning(table, e).Some? ==> r == Run([], [SkipWarning(table, e).value], Completed)
    ensures IsMaterial(e) ==> (r.status.Completed? <==> MaterialSucceeds(materialDir, table, failing, e))
    ensures MaterialTarget(table, e).Some? ==> r.warnings == []
    ensures MaterialTarget(table, e).Some? && r.status.Completed? ==>
      var d := MaterialTarget(table, e).value;
      r.actions == [MaterialCopy(materialDir, d, e.name), SidecarCopy(materialDir, d, e.name)]
    ensures MaterialTarget(table, e).Some? && r.status.Aborted? ==>
      var d := MaterialTarget(table, e).value;
      || (r.actions == [] && r.status.error == ActionFailed(MaterialCopy(materialDir, d, e.name)))
      || (r.actions == [MaterialCopy(materialDir, d, e.name)]
          && r.status.error == ActionFailed(SidecarCopy(materialDir, d, e.name)))
    ensures MaterialTarget(table, e).Some? && MaterialCopy(materialDir, MaterialTarget(table, e).value, e.name) in failing ==>
      r == Run([], [], Aborted(ActionFailed(MaterialCopy(materialDir, MaterialTarget(table, e).value, e.name))))
    ensures MaterialTarget(table, e).Some? && MaterialCopy(materialDir, MaterialTarget(table, e).value, e.name) !in failing
              && SidecarCopy(materialDir, MaterialTarget(table, e).value, e.name) in failing ==>
      var d := MaterialTarget(table, e).value;
      r == Run([MaterialCopy(materialDir, d, e.name)], [], Aborted(ActionFailed(SidecarCopy(materialDir, d, e.name))))
    ensures forall a :: a in r.actions ==> MaterialAction(materialDir, table, e, a)
    ensures forall w :: w in r.warnings ==> SkipWarning(table, e) == Some(w)
  {
    if !IsFilePath(e.kind) || !EndsWith(e.name, ".mat") then Idle
    else
      match e.content
      case None => Run([], [], Aborted(ReadFailed(JoinPath(materialDir, e.name))))
      case Some(text) =>
        match ShaderRef(Lines(text))
        case None => Run([], [MissingGuid(e.name)], Completed)
        case Some(g) =>
          if g !in table then Run([], [UnknownGuid(g)], Completed)
          else
            PerformBoth(MaterialCopy(materialDir, table[g], e.name), SidecarCopy(materialDir, table[g], e.name), failing)
  }

  /** The loop body as a value, for `RunAll`. */
  function MaterialStep(materialDir: string, table: map<string, string>, failing: set<Action>): Entry -> Run
  {
    e => RouteMaterial(materialDir, table, failing, e)
  }

  /**
   The loop of `copy_materials_to_shader` over a listing of the material
   directory, with the guid table already built. It completes exactly when
   every material is read and every routed one copied; it only copies routed
   materials and their sidecars into their table directory and only warns
   about skipped materials; when it completes, every routed material has both
   copies and every skipped one its warning.
   */
  function RouteMaterials(materialDir: string, table: map<string, string>, es: seq<Entry>, failing: set<Action>): (r: Run)
    ensures r.status.Completed? <==>
      forall i :: 0 <= i < |es| && IsMaterial(es[i]) ==> MaterialSucceeds(materialDir, table, failing, es[i])
    ensures forall a :: a in r.actions ==>
      exists i :: 0 <= i < |es| && MaterialAction(materialDir, table, es[i], a)
    ensures forall w :: w in r.warnings ==>
      exists i :: 0 <= i < |es| && SkipWarning(table, es[i]) == Some(w)
    ensures r.status.Completed? ==> forall i :: 0 <= i < |es| && MaterialTarget(table, es[i]).Some? ==>
      && MaterialCopy(materialDir, MaterialTarget(table, es[i]).value, es[i].name) in r.actions
      && SidecarCopy(materialDir, MaterialTarget(table, es[i]).value, es[i].name) in r.actions
    ensures r.status.Completed? ==> forall i :: 0 <= i < |es| && SkipWarning(table, es[i]).Some? ==>
      SkipWarning(table, es[i]).value in r.warnings
  {
    var step := MaterialStep(materialDir, table, failing);
    var r := RunAll(es, step);
    RunAllActions(es, step);
    RunAllWarnings(es, step);
    forall a | a in r.actions
      ensures exists i :: 0 <= i < |es| && MaterialAction(materialDir, table, es[i], a)
    {
      var i :| 0 <= i < |es| && a in step(es[i]).actions;
      assert step(es[i]) == RouteMaterial(materialDir, table, failing, es[i]);
    }
    forall w | w in r.warnings
      ensures exists i :: 0 <= i < |es| && SkipWarning(table, es[i]) == Some(w)
    {
      var i :| 0 <= i < |es| && w in step(es[i]).warnings;
      assert step(es[i]) == RouteMaterial(materialDir, table, failing, es[i]);
    }
    forall i | r.status.Completed? && 0 <= i < |es| && SkipWarning(table, es[i]).Some?
      ensures SkipWarning(table, es[i]).value in r.warnings
    {
      assert step(es[i]) == RouteMaterial(materialDir, table, failing, es[i]);
    }
    r
  }

  /** Every copy lands in a directory of the table, under the material's own file name or its sidecar's. */
  lemma RouteMaterialsTargetsTable(materialDir: string, table: map<string, string>, es: seq<Entry>, failing: set<Action>)
    ensures forall a :: a in RouteMaterials(materialDir, table, es, failing).actions ==>
      exists i, g :: 0 <= i < |es| && MaterialGuid(es[i]) == Some(g) && g in table
        && CopiesInto(materialDir, table[g], es[i].name, a)
  {
    var r := RouteMaterials(materialDir, table, es, failing);
    forall a | a in r.actions
      ensures exists i, g :: (0 <= i < |es| && MaterialGuid(es[i]) == Some(g) && g in table
        && CopiesInto(materialDir, table[g], es[i].name, a))
    {
      var i :| 0 <= i < |es| && MaterialAction(materialDir, table, es[i], a);
      MaterialActionCopiesInto(materialDir, table, es[i], a);
    }
  }

  /** A copy an entry may contribute goes into the table's directory for the guid the entry names. */
  lemma MaterialActionCopiesInto(materialDir: string, table: map<string, string>, e: Entry, a: Action)
    requires MaterialAction(materialDir, table, e, a)
    ensures MaterialGuid(e).Some? && MaterialGuid(e).value in table
    ensures CopiesInto(materialDir, table[MaterialGuid(e).value], e.name, a)
  {
  }

  /** Only material files matter: dropping every other entry from the listing changes nothing. */
  lemma RouteMaterialsIgnoresOtherEntries(materialDir: string, table: map<string, string>, es: seq<Entry>, failing: set<Action>)
    ensures RouteMaterials(materialDir, table, es, failing)
         == RouteMaterials(materialDir, table, Filter(es, IsMaterial), failing)
  {
    RunAllFilter(es, MaterialStep(materialDir, table, failing), IsMaterial);
  }

  /** A read or copy failure ends the loop: later materials are never looked at. */
  lemma RouteMaterialsStopsAtError(materialDir: string, table: map<string, string>, es: seq<Entry>, more: seq<Entry>, failing: set<Action>)
    requires RouteMaterials(materialDir, table, es, failing).status.Aborted?
    ensures RouteMaterials(materialDir, table, es + more, failing) == RouteMaterials(materialDir, table, es, failing)
  {
    RunAllStopsAtError(es, more, MaterialStep(materialDir, table, failing));
  }

  /** A skipped material adds its warning and the loop goes on to the next entry. */
  lemma SkippedMaterialContinues(materialDir: string, table: map<string, string>, es: seq<Entry>, e: Entry, failing: set<Action>)
    requires RouteMaterials(materialDir, table, es, failing).status.Completed?
    requires SkipWarning(table, e).Some?
    ensures var before := RouteMaterials(materialDir, table, es, failing);
      RouteMaterials(materialDir, table, es + [e], failing)
        == Run(before.actions, before.warnings + [SkipWarning(table, e).value], Completed)
  {
    var step := MaterialStep(materialDir, table, failing);
    var before := RouteMaterials(materialDir, table, es, failing);
    RunAllAppend(es, [e], step);
    RunAllSingle(e, step);
    assert step(e) == Run([], [SkipWarning(table, e).value], Completed);
    assert before.actions + [] == before.actions;
  }

  /**
   `copy_materials_to_shader`: the guid table is built from the shader
   directory first, and a failure there aborts before any material is looked
   at; its warnings come first, then the material loop's.
   */
  function CopyMaterialsToShader(shaderDir: string, outputRoot: string, materialDir: string,
                                 shaderEntries: seq<Entry>, materialEntries: seq<Entry>, failing: set<Action>): (r: Run)
    ensures var t := BuildTable(shaderDir, outputRoot, shaderEntries);
      t.status.Aborted? ==> r == Run([], t.warnings, t.status)
    ensures var t := BuildTable(shaderDir, outputRoot, shaderEntries);
      t.status.Completed? ==>
        var m := RouteMaterials(materialDir, t.table, materialEntries, failing);
        r == Run(m.actions, t.warnings + m.warnings, m.status)
  {
    var t := BuildTable(shaderDir, outputRoot, shaderEntries);
    Then(Run([], t.warnings, t.status), RouteMaterials(materialDir, t.table, materialEntries, failing))
  }

  /**
   Action `a` copies material `m`, or its sidecar, into the directory of the
   last shader sidecar in `shaderEntries` that declares the guid `m` names.
   */
  ghost predicate FollowsGuid(materialDir: string, outputRoot: string, shaderEntries: seq<Entry>, m: Entry, a: Action)
  {
    && MaterialGuid(m).Some?
    && exists j :: (
      && IsLastWithGuid(shaderEntries, MaterialGuid(m).value, j)
      && var d := MetaTarget(outputRoot, shaderEntries[j].name);
         (a == MaterialCopy(materialDir, d, m.name) || a == SidecarCopy(materialDir, d, m.name)))
  }

  /**
   End to end: every copy goes to the directory of the shader whose sidecar
   declares the guid the material names, and when several sidecars declare
   it, to the last one's.
   */
  lemma CopiesFollowGuids(shaderDir: string, outputRoot: string, materialDir: string,
                          shaderEntries: seq<Entry>, materialEntries: seq<Entry>, failing: set<Action>)
    ensures forall a :: a in CopyMaterialsToShader(shaderDir, outputRoot, materialDir, shaderEntries, materialEntries, failing).actions ==>
      exists i :: 0 <= i < |materialEntries| && FollowsGuid(materialDir, outputRoot, shaderEntries, materialEntries[i], a)
  {
    var t := BuildTable(shaderDir, outputRoot, shaderEntries);
    var r := CopyMaterialsToShader(shaderDir, outputRoot, materialDir, shaderEntries, materialEntries, failing);
    if t.status.Completed? {
      BuildTableContents(shaderDir, outputRoot, shaderEntries);
      var m := RouteMaterials(materialDir, t.table, materialEntries, failing);
      assert r.actions == m.actions;
      forall a | a in r.actions
        ensures exists i :: 0 <= i < |materialEntries| && FollowsGuid(materialDir, outputRoot, shaderEntries, materialEntries[i], a)
      {
        var i :| 0 <= i < |materialEntries| && MaterialAction(materialDir, t.table, materialEntries[i], a);
        var g := MaterialGuid(materialEntries[i]).value;
        assert g in t.table;
        var j :| IsLastWithGuid(shaderEntries, g, j) && t.table[g] == MetaTarget(outputRoot, shaderEntries[j].name);
        assert FollowsGuid(materialDir, outputRoot, shaderEntries, materialEntries[i], a);
      }
    }
  }
}
