/**
 The two phases together, as the command line runs them: first the shader
 directory is restructured, then materials are routed using a guid table
 built from the same shader directory.
 */
module Pipeline {
  import opened Text
  import opened Fs
  import opened Shaders
  import opened Guid
  import opened Materials

  /** Every sidecar that declares a guid has a shader file of the same base name next to it. */
  ghost predicate SidecarsHaveShaders(es: seq<Entry>)
  {
    forall j :: 0 <= j < |es| && MetaGuid(es[j]).Some? ==>
      exists k :: 0 <= k < |es| && IsShaderFile(es[k]) && Stem(es[k].name) == Stem(es[j].name)
  }

  /**
   The material phase reads only the sidecars of the shader directory: two
   listings with the same sidecars, in the same order, route materials alike.
   */
  lemma SameSidecarsSameCopies(shaderDir: string, outputRoot: string, materialDir: string,
                               before: seq<Entry>, after: seq<Entry>, materials: seq<Entry>, failing: set<Action>)
    requires Filter(after, IsMetaFile) == Filter(before, IsMetaFile)
    ensures CopyMaterialsToShader(shaderDir, outputRoot, materialDir, after, materials, failing)
         == CopyMaterialsToShader(shaderDir, outputRoot, materialDir, before, materials, failing)
  {
    BuildTableIgnoresOtherEntries(shaderDir, outputRoot, before);
    BuildTableIgnoresOtherEntries(shaderDir, outputRoot, after);
  }

  /** Every shader file of `es` has its directory created by one of `created`. */
  ghost predicate ShaderDirsCreated(outputRoot: string, es: seq<Entry>, created: seq<Action>)
  {
    forall k :: 0 <= k < |es| && IsShaderFile(es[k]) ==> ShaderMkdir(outputRoot, es[k]) in created
  }

  /** A copy that follows a guid whose sidecar sits next to its shader lands in that shader's directory. */
  lemma CopyLandsInCreatedDirectory(materialDir: string, outputRoot: string, before: seq<Entry>,
                                    created: seq<Action>, m: Entry, a: Action)
    requires ShaderDirsCreated(outputRoot, before, created)
    requires SidecarsHaveShaders(before)
    requires FollowsGuid(materialDir, outputRoot, before, m, a)
    ensures exists d :: CreateDirAll(d) in created && CopiesInto(materialDir, d, m.name, a)
  {
    var g := MaterialGuid(m).value;
    var j :| IsLastWithGuid(before, g, j)
      && var d := MetaTarget(outputRoot, before[j].name);
         (a == MaterialCopy(materialDir, d, m.name) || a == SidecarCopy(materialDir, d, m.name));
    var k :| 0 <= k < |before| && IsShaderFile(before[k]) && Stem(before[k].name) == Stem(before[j].name);
    var d := MetaTarget(outputRoot, before[j].name);
    assert CreateDirAll(d) == ShaderMkdir(outputRoot, before[k]);
    assert CopiesInto(materialDir, d, m.name, a);
  }

  /** Each of `actions` lands in a directory of `created` when each follows a guid. */
  lemma AllCopiesLandInCreatedDirectories(materialDir: string, outputRoot: string, before: seq<Entry>,
                                          created: seq<Action>, materials: seq<Entry>, actions: seq<Action>)
    requires ShaderDirsCreated(outputRoot, before, created)
    requires SidecarsHaveShaders(before)
    requires forall a :: a in actions ==>
      exists i :: 0 <= i < |materials| && FollowsGuid(materialDir, outputRoot, before, materials[i], a)
    ensures forall a :: a in actions ==>
      exists i, d :: 0 <= i < |materials| && CreateDirAll(d) in created
        && CopiesInto(materialDir, d, materials[i].name, a)
  {
    forall a | a in actions
      ensures exists i, d :: (0 <= i < |materials| && CreateDirAll(d) in created
        && CopiesInto(materialDir, d, materials[i].name, a))
    {
      var i :| 0 <= i < |materials| && FollowsGuid(materialDir, outputRoot, before, materials[i], a);
      CopyLandsInCreatedDirectory(materialDir, outputRoot, before, created, materials[i], a);
    }
  }

  /**
   When the restructure phase completed and every sidecar with a guid sits
   next to its shader, every copy of the material phase lands directly in a
   directory the restructure phase created. The material phase lists the
   shader directory again after the rewrite: only shader files changed, so
   its sidecars are the ones listed before.
   */
  lemma CopiesLandInCreatedDirectories(shaderDir: string, outputRoot: string, materialDir: string, suffix: string,
                                       before: seq<Entry>, after: seq<Entry>, materials: seq<Entry>,
                                       failing: set<Action>, failingLater: set<Action>)
    requires Restructure(shaderDir, outputRoot, suffix, before, failing).status.Completed?
    requires SidecarsHaveShaders(before)
    requires Filter(after, IsMetaFile) == Filter(before, IsMetaFile)
    ensures var created := Restructure(shaderDir, outputRoot, suffix, before, failing).actions;
      forall a :: a in CopyMaterialsToShader(shaderDir, outputRoot, materialDir, after, materials, failingLater).actions ==>
        exists i, d :: 0 <= i < |materials| && CreateDirAll(d) in created
          && CopiesInto(materialDir, d, materials[i].name, a)
  {
    var created := Restructure(shaderDir, outputRoot, suffix, before, failing).actions;
    assert ShaderDirsCreated(outputRoot, before, created);
    SameSidecarsSameCopies(shaderDir, outputRoot, materialDir, before, after, materials, failingLater);
    CopiesFollowGuids(shaderDir, outputRoot, materialDir, before, materials, failingLater);
    var r := CopyMaterialsToShader(shaderDir, outputRoot, materialDir, before, materials, failingLater);
    AllCopiesLandInCreatedDirectories(materialDir, outputRoot, before, created, materials, r.actions);
  }

  /**
   The three listings filter links differently: a link to a file is taken
   for a shader or a material by its name alone, but never for a sidecar;
   an entry that is neither a file nor a directory can only be a shader.
   */
  lemma LinkedEntries(e: Entry)
    ensures e.kind == FileLink ==> !IsMetaFile(e)
    ensures e.kind == FileLink ==> (IsShaderFile(e) <==> EndsWith(e.name, ".shader"))
    ensures e.kind == FileLink ==> (IsMaterial(e) <==> EndsWith(e.name, ".mat"))
    ensures e.kind == Other ==> !IsMetaFile(e) && !IsMaterial(e)
    ensures e.kind == Other ==> (IsShaderFile(e) <==> EndsWith(e.name, ".shader"))
    ensures IsDirPath(e.kind) ==> !IsShaderFile(e) && !IsMetaFile(e) && !IsMaterial(e)
  {
  }

  /** The name endings keep the three kinds of file apart. */
  lemma FiltersAreDisjoint(e: Entry)
    ensures !(IsShaderFile(e) && IsMetaFile(e))
    ensures !(IsShaderFile(e) && IsMaterial(e))
    ensures !(IsMetaFile(e) && IsMaterial(e))
  {
    if IsMetaFile(e) {
      SidecarIsNotShader(e);
      SidecarIsNotMaterial(e);
    }
    assert IsShaderFile(e) ==> e.name[|e.name| - 1] == 'r';
    assert IsMaterial(e) ==> e.name[|e.name| - 1] == 't';
  }
}
