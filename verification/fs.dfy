/**
 The file-system view shared by the three phases: directory entries given as
 data, effects returned as a list of actions, per-file warnings, fatal
 errors, and the `while let Some(entry) = entries.next_entry().await?` loop
 that stops at the first fatal error without undoing earlier effects.
 */
module Fs {
  import opened Common
  import opened Text

  /**
   What a directory entry is. `FileLink` and `DirLink` are symbolic links to
   a regular file or a directory; `Other` is anything else (a broken link, a
   socket, a device).
   */
  datatype Kind = File | Dir | FileLink | DirLink | Other

  /** `path.is_dir()`: follows symbolic links. */
  predicate IsDirPath(k: Kind)
  {
    k == Dir || k == DirLink
  }

  /** `path.is_file()`: follows symbolic links. */
  predicate IsFilePath(k: Kind)
  {
    k == File || k == FileLink
  }

  /** `entry.file_type().is_file()`: does not follow symbolic links. */
  predicate IsRegularFile(k: Kind)
  {
    k == File
  }

  /**
   One entry of a directory listing. `content` is what `read_to_string`
   returns for it, `None` when reading fails.
   */
  datatype Entry = Entry(name: string, kind: Kind, content: Option<string>)

  /** The effects the pipeline asks of the file system, in the order it asks. */
  datatype Action =
    | WriteFile(path: string, text: string)
    | CreateDirAll(path: string)
    | Copy(source: string, target: string)

  /** Per-file problems that are reported and skipped. */
  datatype Warning =
    | MissingGuid(file: string)
    | UnknownGuid(guid: string)

  /** Problems that abort the whole run. */
  datatype Error =
    | ReadFailed(path: string)
    | FileEmpty
    | ShaderNameNotFound
    | ActionFailed(action: Action)

  datatype Status = Completed | Aborted(error: Error)

  /**
   What a run did: the actions that succeeded, in order, the warnings it
   printed, and whether it finished or stopped at a fatal error.
   */
  datatype Run = Run(actions: seq<Action>, warnings: seq<Warning>, status: Status)

  /** A run that did nothing and succeeded. */
  const Idle := Run([], [], Completed)

  /** Sequencing with `?`: the second run happens only if the first completed. */
  function Then(a: Run, b: Run): (r: Run)
    ensures a.status.Aborted? ==> r == a
    ensures a.status.Completed? ==> r.status == b.status
    ensures a.status.Completed? ==> r.actions == a.actions + b.actions
    ensures a.status.Completed? ==> r.warnings == a.warnings + b.warnings
  {
    if a.status.Aborted? then a
    else Run(a.actions + b.actions, a.warnings + b.warnings, b.status)
  }

  lemma ThenAssociative(a: Run, b: Run, c: Run)
    ensures Then(Then(a, b), c) == Then(a, Then(b, c))
  {
    if a.status.Completed? && b.status.Completed? {
      assert (a.actions + b.actions) + c.actions == a.actions + (b.actions + c.actions);
      assert (a.warnings + b.warnings) + c.warnings == a.warnings + (b.warnings + c.warnings);
    }
  }

  /**
   Asks for one action; `failing` is the set of actions the file system
   refuses in this run. A refused action leaves no effect and aborts.
   */
  function Perform(action: Action, failing: set<Action>): (r: Run)
    ensures r.warnings == []
    ensures r.status.Completed? <==> action !in failing
    ensures r.status.Completed? ==> r.actions == [action]
    ensures r.status.Aborted? ==> r.actions == [] && r.status.error == ActionFailed(action)
  {
    if action in failing then Run([], [], Aborted(ActionFailed(action)))
    else Run([action], [], Completed)
  }

  /**
   Two actions in sequence: the second is attempted only once the first has
   gone through, and the first failure aborts.
   */
  function PerformBoth(first: Action, second: Action, failing: set<Action>): (r: Run)
    ensures r.warnings == []
    ensures r.status.Completed? <==> first !in failing && second !in failing
    ensures r.status.Completed? ==> r.actions == [first, second]
    ensures r.status.Aborted? && r.actions == [] ==> r.status.error == ActionFailed(first)
    ensures r.status.Aborted? && r.actions != [] ==>
      r.actions == [first] && r.status.error == ActionFailed(second)
    ensures forall a :: a in r.actions ==> a == first || a == second
    ensures first in failing ==> r == Run([], [], Aborted(ActionFailed(first)))
    ensures first !in failing && second in failing ==> r == Run([first], [], Aborted(ActionFailed(second)))
  {
    Then(Perform(first, failing), Perform(second, failing))
  }

  /**
   The directory loop: `step` handles one entry, entries are handled in
   listing order, and the first fatal error ends the loop.
   */
  function RunAll(es: seq<Entry>, step: Entry -> Run): (r: Run)
    ensures r.status.Completed? <==> forall i :: 0 <= i < |es| ==> step(es[i]).status.Completed?
    ensures r.status.Aborted? ==> exists i :: 0 <= i < |es| && step(es[i]).status == r.status
    ensures (forall i :: 0 <= i < |es| ==> step(es[i]).warnings == []) ==> r.warnings == []
    decreases |es|
  {
    if |es| == 0 then Idle
    else
      var r := Then(step(es[0]), RunAll(es[1..], step));
      assert forall i :: 0 < i < |es| ==> es[i] == es[1..][i - 1];
      r
  }

  /**
   The loop only does what its steps do, and when it completes it has done
   everything every step does.
   */
  lemma {:induction false} RunAllActions(es: seq<Entry>, step: Entry -> Run)
    ensures var r := RunAll(es, step);
      forall a :: a in r.actions ==> exists i :: 0 <= i < |es| && a in step(es[i]).actions
    ensures var r := RunAll(es, step);
      r.status.Completed? ==> forall i, a :: 0 <= i < |es| && a in step(es[i]).actions ==> a in r.actions
    decreases |es|
  {
    if |es| > 0 {
      RunAllActions(es[1..], step);
      assert forall i :: 0 < i < |es| ==> es[i] == es[1..][i - 1];
    }
  }

  /**
   The loop only prints what its steps print, and when it completes it has
   printed everything every step prints.
   */
  lemma {:induction false} RunAllWarnings(es: seq<Entry>, step: Entry -> Run)
    ensures var r := RunAll(es, step);
      forall w :: w in r.warnings ==> exists i :: 0 <= i < |es| && w in step(es[i]).warnings
    ensures var r := RunAll(es, step);
      r.status.Completed? ==> forall i, w :: 0 <= i < |es| && w in step(es[i]).warnings ==> w in r.warnings
    decreases |es|
  {
    if |es| > 0 {
      RunAllWarnings(es[1..], step);
      assert forall i :: 0 < i < |es| ==> es[i] == es[1..][i - 1];
    }
  }

  /** Handling `a + b` is handling `a`, then, if that completed, handling `b`. */
  lemma {:induction false} RunAllAppend(a: seq<Entry>, b: seq<Entry>, step: Entry -> Run)
    ensures RunAll(a + b, step) == Then(RunAll(a, step), RunAll(b, step))
    decreases |a|
  {
    if |a| == 0 {
      assert a + b == b;
    } else {
      assert (a + b)[1..] == a[1..] + b;
      RunAllAppend(a[1..], b, step);
      ThenAssociative(step(a[0]), RunAll(a[1..], step), RunAll(b, step));
    }
  }

  /** A listing of one entry is handled by that entry's step alone. */
  lemma RunAllSingle(e: Entry, step: Entry -> Run)
    ensures RunAll([e], step) == step(e)
  {
    assert [e][1..] == [];
    var r := step(e);
    assert r.actions + [] == r.actions && r.warnings + [] == r.warnings;
  }

  /** After a fatal error no later entry is looked at. */
  lemma RunAllStopsAtError(a: seq<Entry>, b: seq<Entry>, step: Entry -> Run)
    requires RunAll(a, step).status.Aborted?
    ensures RunAll(a + b, step) == RunAll(a, step)
  {
    RunAllAppend(a, b, step);
  }

  /** The entries of `es` that `keep` selects, in order. */
  function Filter(es: seq<Entry>, keep: Entry -> bool): (r: seq<Entry>)
    ensures |r| <= |es|
    ensures forall e :: e in r ==> e in es && keep(e)
    ensures forall e :: e in es && keep(e) ==> e in r
  {
    if |es| == 0 then []
    else if keep(es[0]) then [es[0]] + Filter(es[1..], keep)
    else Filter(es[1..], keep)
  }

  /** Filtering a listing with one more entry at the end. */
  lemma {:induction false} FilterSnoc(es: seq<Entry>, e: Entry, keep: Entry -> bool)
    ensures Filter(es + [e], keep) == Filter(es, keep) + (if keep(e) then [e] else [])
    decreases |es|
  {
    if |es| > 0 {
      assert (es + [e])[1..] == es[1..] + [e];
      FilterSnoc(es[1..], e, keep);
    }
  }

  /** Entries whose step does nothing can be dropped from the listing. */
  lemma {:induction false} RunAllFilter(es: seq<Entry>, step: Entry -> Run, keep: Entry -> bool)
    requires forall e :: !keep(e) ==> step(e) == Idle
    ensures RunAll(es, step) == RunAll(Filter(es, keep), step)
    decreases |es|
  {
    if |es| > 0 {
      RunAllFilter(es[1..], step, keep);
      if keep(es[0]) {
        assert Filter(es, keep)[1..] == Filter(es[1..], keep);
      } else {
        assert step(es[0]) == Idle;
        var rest := RunAll(es[1..], step);
        assert Then(Idle, rest) == rest;
      }
    }
  }

  /**
   Unix `Path::join` (`PathBuf::push`): an absolute right side replaces the
   left; otherwise one `/` separates the two unless the left is empty or
   already ends in `/`.
   */
  function JoinPath(dir: string, name: string): (r: string)
    ensures |name| > 0 && name[0] == '/' ==> r == name
    ensures (|name| == 0 || name[0] != '/') && dir != "" && dir[|dir| - 1] != '/' ==> r == dir + "/" + name
  {
    if |name| > 0 && name[0] == '/' then name
    else if dir == "" || dir[|dir| - 1] == '/' then dir + name
    else dir + "/" + name
  }

  /** A relative name joined onto a directory stays inside it. */
  lemma JoinPathUnder(dir: string, name: string)
    requires |name| == 0 || name[0] != '/'
    ensures dir <= JoinPath(dir, name)
    ensures EndsWith(JoinPath(dir, name), name)
  {
  }

  /** Position of the last `c` in `s`. */
  function LastIndexOf(s: string, c: char): (i: nat)
    requires c in s
    ensures i < |s| && s[i] == c
    ensures forall k :: i < k < |s| ==> s[k] != c
  {
    if s[|s| - 1] == c then |s| - 1
    else
      assert c in s[..|s| - 1] by {
        var k :| 0 <= k < |s| && s[k] == c;
        assert s[..|s| - 1][k] == c;
      }
      LastIndexOf(s[..|s| - 1], c)
  }

  /** `name` has a `.` after its first character. */
  predicate HasInnerDot(name: string)
  {
    exists k :: 0 < k < |name| && name[k] == '.'
  }

  /**
   `Path::file_stem` of a file name: the text before the last `.`, or the
   whole name when it has no `.`, when that `.` is its first character, or
   when it is `..`.
   */
  function FileStem(name: string): (r: string)
    ensures r <= name
    ensures '.' !in name ==> r == name
    ensures r == name || (|r| > 0 && name[|r|] == '.' && forall k :: |r| < k < |name| ==> name[k] != '.')
    ensures name == ".." || !HasInnerDot(name) ==> r == name
    ensures name != ".." && HasInnerDot(name) ==>
      0 < |r| < |name| && name[|r|] == '.' && forall k :: |r| < k < |name| ==> name[k] != '.'
  {
    if name == ".." || '.' !in name then name
    else
      var i := LastIndexOf(name, '.');
      if i == 0 then name else name[..i]
  }

  /** `Path::with_extension(ext)` applied to a file name, for a non-empty `ext`. */
  function WithExtension(name: string, ext: string): string
  {
    FileStem(name) + "." + ext
  }

  /**
   The sidecar of a material `<stem>.mat` with a non-empty stem is
   `<stem>.mat.meta`; the bare name `.mat` has no extension in Rust's eyes
   and gets `.mat.mat.meta`.
   */
  lemma {:induction false} MaterialSidecarName(name: string)
    requires EndsWith(name, ".mat")
    ensures name != ".mat" ==> WithExtension(name, "mat.meta") == name + ".meta"
    ensures name == ".mat" ==> WithExtension(name, "mat.meta") == ".mat.mat.meta"
  {
    var n := |name|;
    var stem := name[..n - 4];
    assert name == stem + ".mat";
    if name == ".mat" {
      assert name[1] == 'm' && name[2] == 'a' && name[3] == 't';
      assert !HasInnerDot(name);
    } else {
      assert stem == "" ==> name == ".mat";
      assert ".mat"[1..] == "mat";
      FileStemOfDotted(stem, ".mat");
      assert "." + "mat.meta" == ".mat" + ".meta";
      assert stem + "." + "mat.meta" == stem + ".mat" + ".meta";
    }
  }

  /**
   The stem of `<stem><dotExt>` is `<stem>` when `<stem>` is not empty,
   `<dotExt>` is a `.` followed by no other `.`, and the name is not `..`.
   */
  lemma FileStemOfDotted(stem: string, dotExt: string)
    requires |stem| > 0 && |dotExt| > 0 && dotExt[0] == '.' && '.' !in dotExt[1..]
    requires stem != "." || |dotExt| > 1
    ensures FileStem(stem + dotExt) == stem
  {
    var ext := dotExt[1..];
    assert dotExt == "." + ext;
    var name := stem + "." + ext;
    assert name == stem + dotExt;
    assert name[|stem|] == '.';
    assert HasInnerDot(name);
    assert name != ".." by {
      assert |name| == 2 ==> name[1] == '.' && ext == "" && |stem| == 1 && name[0] == stem[0];
    }
    var r := FileStem(name);
    assert forall j :: 0 <= j < |ext| ==> ext[j] != '.';
    assert forall k :: |stem| < k < |name| ==> name[k] == ext[k - |stem| - 1];
    assert |r| == |stem|;
  }

  /** `file_name.split('.').next()`: the base name of an asset, before its first `.`. */
  function Stem(name: string): (r: string)
    ensures r <= name && '.' !in r
    ensures r == name || name[|r|] == '.'
  {
    Before(name, '.')
  }
}
