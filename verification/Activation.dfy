// Replacing the agent's binary by renames, and rolling back. Every call may fail, and the
// process may crash between any two of them.
module Activation {
  import opened Wrappers

  datatype File = File(content: string, regular: bool, executable: bool)

  type Files = map<string, File>

  function Previous(active: string): (path: string)
    ensures path != active
  {
    active + ".previous"
  }

  function FailedPath(active: string): (path: string)
    ensures path != active && path != Previous(active)
  {
    assert (active + ".failed")[|active| + 1] == 'f' && Previous(active)[|active| + 1] == 'p';
    active + ".failed"
  }

  // ---------- File operations; a fault is a failure the files do not explain ----------

  predicate Stat(files: Files, path: string, fault: bool) {
    path in files && !fault
  }

  function Removed(files: Files, path: string, fault: bool): Files {
    if fault then files else files - {path}
  }

  // None when the rename fails, which changes nothing. Renaming a path to itself is a no-op.
  function Renamed(files: Files, from: string, to: string, fault: bool): Option<Files> {
    if from !in files || fault then None
    else if from == to then Some(files)
    else Some((files - {from})[to := files[from]])
  }

  class FileSystem {
    var files: Files
    ghost var trace: seq<Files>

    constructor (files: Files)
      ensures this.files == files && trace == []
    {
      this.files, trace := files, [];
    }

    method Remove(path: string, fault: bool)
      modifies this
      ensures files == Removed(old(files), path, fault) && trace == old(trace) + [files]
    {
      if !fault { files := files - {path}; }
      trace := trace + [files];
    }

    method Rename(from: string, to: string, fault: bool) returns (ok: bool)
      modifies this
      ensures ok <==> Renamed(old(files), from, to, fault).Some?
      ensures files == if ok then Renamed(old(files), from, to, fault).value else old(files)
      ensures trace == old(trace) + [files]
    {
      ok := from in files && !fault;
      if ok && from != to {
        var file := files[from];
        files := (files - {from})[to := file];
      }
      trace := trace + [files];
    }
  }

  // ---------- The specification: every state on the way ----------

  datatype Run = Run(states: seq<Files>, ok: bool)

  function Last(states: seq<Files>, otherwise: Files): Files {
    if states == [] then otherwise else states[|states| - 1]
  }

  datatype ActivateFaults = ActivateFaults(
    statStaged: bool,
    makeDirectory: bool,
    statActive: bool,
    removePrevious: bool,
    renameActive: bool,
    renameStaged: bool,
    statPrevious: bool,
    renameBack: bool)

  predicate Staged(files: Files, staged: string, f: ActivateFaults) {
    Stat(files, staged, f.statStaged) && files[staged].regular && files[staged].executable && !f.makeDirectory
  }

  // From the point where the old binary, if one was seen, is out of the way.
  function Install(files: Files, staged: string, active: string, f: ActivateFaults): Run {
    match Renamed(files, staged, active, f.renameStaged)
    case Some(installed) => Run([installed], true)
    case None =>
      if !Stat(files, Previous(active), f.statPrevious) then Run([files], false)
      else match Renamed(files, Previous(active), active, f.renameBack)
           case None => Run([files, files], false)
           case Some(restored) => Run([files, restored], false)
  }

  function ActivateRun(files: Files, staged: string, active: string, f: ActivateFaults): Run {
    if !Staged(files, staged, f) then Run([], false)
    else if !Stat(files, active, f.statActive) then Install(files, staged, active, f)
    else
      var removed := Removed(files, Previous(active), f.removePrevious);
      match Renamed(removed, active, Previous(active), f.renameActive)
      case None => Run([removed, removed], false)
      case Some(preserved) =>
        var rest := Install(preserved, staged, active, f);
        Run([removed, preserved] + rest.states, rest.ok)
  }

  datatype RollbackFaults = RollbackFaults(statPrevious: bool, removeFailed: bool, renameActive: bool, renamePrevious: bool)

  function RollbackRun(files: Files, active: string, f: RollbackFaults): Run {
    if !Stat(files, Previous(active), f.statPrevious) then Run([], false) else
    var removed := Removed(files, FailedPath(active), f.removeFailed);
    match Renamed(removed, active, FailedPath(active), f.renameActive)
    case None => Run([removed, removed], false)
    case Some(aside) =>
      match Renamed(aside, Previous(active), active, f.renamePrevious)
      case None => Run([removed, aside, aside], false)
      case Some(restored) => Run([removed, aside, restored], true)
  }

  method InstallStaged(fs: FileSystem, staged: string, active: string, f: ActivateFaults) returns (ok: bool)
    modifies fs
    ensures var run := Install(old(fs.files), staged, active, f);
            && fs.trace == old(fs.trace) + run.states
            && fs.files == Last(run.states, old(fs.files))
            && ok == run.ok
  {
    ok := fs.Rename(staged, active, f.renameStaged);
    if !ok && Stat(fs.files, Previous(active), f.statPrevious) {
      var restored := fs.Rename(Previous(active), active, f.renameBack);
    }
  }

  method Activate(fs: FileSystem, staged: string, active: string, f: ActivateFaults) returns (ok: bool)
    modifies fs
    ensures var run := ActivateRun(old(fs.files), staged, active, f);
            && fs.trace == old(fs.trace) + run.states
            && fs.files == Last(run.states, old(fs.files))
            && ok == run.ok
  {
    if !Stat(fs.files, staged, f.statStaged) { return false; }
    if !fs.files[staged].regular || !fs.files[staged].executable { return false; }
    if f.makeDirectory { return false; }
    var previous := Previous(active);
    if Stat(fs.files, active, f.statActive) {
      fs.Remove(previous, f.removePrevious);
      var preserved := fs.Rename(active, previous, f.renameActive);
      if !preserved { return false; }
    }
    ok := InstallStaged(fs, staged, active, f);
  }

  method Rollback(fs: FileSystem, active: string, f: RollbackFaults) returns (ok: bool)
    modifies fs
    ensures var run := RollbackRun(old(fs.files), active, f);
            && fs.trace == old(fs.trace) + run.states
            && fs.files == Last(run.states, old(fs.files))
            && ok == run.ok
  {
    var previous := Previous(active);
    if !Stat(fs.files, previous, f.statPrevious) { return false; }
    var failed := FailedPath(active);
    fs.Remove(failed, f.removeFailed);
    var aside := fs.Rename(active, failed, f.renameActive);
    if !aside { return false; }
    ok := fs.Rename(previous, active, f.renamePrevious);
  }

  // ---------- Outcomes ----------

  // A path other than the given ones holds what it held.
  ghost predicate OthersKept(before: Files, after: Files, touched: set<string>) {
    forall path :: path !in touched ==> (path in before <==> path in after) && (path in before ==> before[path] == after[path])
  }

  // Activation succeeds exactly when the candidate is an executable file and the renames work;
  // it is then the active binary, and the old one is retained beside it.
  lemma ActivatesExactly(files: Files, staged: string, active: string, f: ActivateFaults)
    requires staged != active && staged != active + ".previous"
    ensures var run, previous := ActivateRun(files, staged, active, f), active + ".previous";
            var seen, after := active in files && !f.statActive, Last(run.states, files);
            && (run.ok <==>
                  && staged in files && files[staged].regular && files[staged].executable
                  && !f.statStaged && !f.makeDirectory && !f.renameStaged && !(seen && f.renameActive))
            && (run.ok ==>
                  && after.Keys == files.Keys - {staged} + {active} + (if seen then {previous} else {})
                  && after[active] == files[staged] && (seen ==> after[previous] == files[active])
                  && OthersKept(files, after, {staged, active} + if seen then {previous} else {}))
  {
  }

  // A candidate that is missing, no regular file or not executable changes nothing.
  lemma UnfitCandidateChangesNothing(files: Files, staged: string, active: string, f: ActivateFaults)
    requires staged !in files || !files[staged].regular || !files[staged].executable
    ensures ActivateRun(files, staged, active, f) == Run([], false)
  {
  }

  // After a failure the old binary is the active one again exactly when it could not be moved
  // away or the move back works.
  lemma FailureRestoresExactly(files: Files, staged: string, active: string, f: ActivateFaults)
    requires staged != active && staged != active + ".previous"
    requires staged in files && files[staged].regular && files[staged].executable && !f.statStaged && !f.makeDirectory
    requires active in files && !f.statActive && !ActivateRun(files, staged, active, f).ok
    ensures var after := Last(ActivateRun(files, staged, active, f).states, files);
            && (active in after && after[active] == files[active] <==> f.renameActive || !(f.statPrevious || f.renameBack))
            && staged in after && after[staged] == files[staged]
  {
  }

  // When the old binary cannot be moved away, what was retained before it is gone already,
  // unless it could not be removed.
  lemma RetainedBinaryIsDropped(files: Files, staged: string, active: string, f: ActivateFaults)
    requires staged in files && files[staged].regular && files[staged].executable && !f.statStaged && !f.makeDirectory
    requires active in files && !f.statActive && f.renameActive
    ensures var run := ActivateRun(files, staged, active, f);
            !run.ok && Last(run.states, files) == if f.removePrevious then files else files - {active + ".previous"}
  {
  }

  // A rollback succeeds exactly when both binaries are there and the renames work; they have
  // then moved up one place, and the retained one is active again.
  lemma RollsBackExactly(files: Files, active: string, f: RollbackFaults)
    ensures var run, previous, failed := RollbackRun(files, active, f), active + ".previous", active + ".failed";
            var after := Last(run.states, files);
            && (run.ok <==> previous in files && active in files && !f.statPrevious && !f.renameActive && !f.renamePrevious)
            && (run.ok ==>
                  && after.Keys == files.Keys - {previous} + {failed}
                  && after[active] == files[previous] && after[failed] == files[active]
                  && OthersKept(files, after, {active, previous, failed}))
            && (run.states != [] ==> OthersKept(files, run.states[0], {failed}))
  {
    assert FailedPath(active) != active && FailedPath(active) != Previous(active);
  }

  // ---------- Crash safety ----------

  predicate Holds(files: Files, path: string, file: File) {
    path in files && files[path] == file
  }

  // The binary that was active is still at one of the two places an operator looks for it.
  predicate Kept(files: Files, active: string, binary: File) {
    Holds(files, active, binary) || Holds(files, Previous(active), binary)
  }

  // At every point of a crash and after every failure the old binary is kept, unless its own
  // inspection failed although it was there.
  lemma OldBinaryIsKept(files: Files, staged: string, active: string, f: ActivateFaults, i: nat)
    requires active in files && !f.statActive
    requires i < |ActivateRun(files, staged, active, f).states|
    ensures Kept(ActivateRun(files, staged, active, f).states[i], active, files[active])
  {
    var removed := Removed(files, Previous(active), f.removePrevious);
    var preserved := Renamed(removed, active, Previous(active), f.renameActive);
    assert active in removed && removed[active] == files[active];
    if preserved.Some? {
      assert Holds(preserved.value, Previous(active), files[active]);
    }
  }

  // Whether an inspection of the active binary that failed for no reason ends up costing it.
  predicate Overwrites(files: Files, staged: string, active: string, f: ActivateFaults) {
    && Staged(files, staged, f) && f.statActive
    && (!f.renameStaged || (Previous(active) in files && !f.statPrevious && !f.renameBack))
  }

  // When the staged and the retained binary differ from the active one, the old binary is
  // lost somewhere on the way exactly when that inspection failed and a rename then succeeded.
  lemma OldBinaryIsLostExactlyWhenUnseen(files: Files, staged: string, active: string, f: ActivateFaults)
    requires active in files
    requires staged in files ==> files[staged] != files[active]
    requires Previous(active) in files ==> files[Previous(active)] != files[active]
    ensures (exists i :: 0 <= i < |ActivateRun(files, staged, active, f).states|
                         && !Kept(ActivateRun(files, staged, active, f).states[i], active, files[active]))
       <==> Overwrites(files, staged, active, f)
  {
    var run := ActivateRun(files, staged, active, f);
    if !f.statActive {
      forall i | 0 <= i < |run.states| ensures Kept(run.states[i], active, files[active]) {
        OldBinaryIsKept(files, staged, active, f, i);
      }
    } else if Overwrites(files, staged, active, f) {
      assert !Kept(run.states[|run.states| - 1], active, files[active]);
    }
  }

  // ---------- Rollback ----------

  // The retained binary and the one it replaces both survive a crash at any point.
  lemma RollbackKeepsBoth(files: Files, active: string, f: RollbackFaults, i: nat)
    requires active in files && Previous(active) in files
    requires i < |RollbackRun(files, active, f).states|
    ensures var state := RollbackRun(files, active, f).states[i];
            && (Holds(state, active, files[Previous(active)]) || Holds(state, Previous(active), files[Previous(active)]))
            && (Holds(state, active, files[active]) || Holds(state, FailedPath(active), files[active]))
  {
  }

  // After a successful activation a rollback without faults puts the old binary back, exactly
  // when the candidate was not staged at the place where the old one is retained.
  lemma RollbackRestores(files: Files, staged: string, active: string, f: ActivateFaults)
    requires active in files && !f.statActive && ActivateRun(files, staged, active, f).ok
    ensures var activated := Last(ActivateRun(files, staged, active, f).states, files);
            var rolledBack := RollbackRun(activated, active, RollbackFaults(false, false, false, false));
            && (rolledBack.ok <==> staged != Previous(active))
            && (rolledBack.ok ==> Holds(Last(rolledBack.states, activated), active, files[active])
                                  && Holds(Last(rolledBack.states, activated), FailedPath(active), files[staged]))
            && (!rolledBack.ok ==> rolledBack.states == [] && Holds(activated, active, files[active]))
  {
    var removed := Removed(files, Previous(active), f.removePrevious);
    var preserved := Renamed(removed, active, Previous(active), f.renameActive).value;
    assert Holds(preserved, Previous(active), files[active]) && active !in preserved;
    var activated := Renamed(preserved, staged, active, f.renameStaged).value;
    assert Last(ActivateRun(files, staged, active, f).states, files) == activated;
    if staged != Previous(active) {
      assert Holds(activated, active, files[staged]) && Holds(activated, Previous(active), files[active]);
    }
  }

  // A second rollback fails before it touches anything, whatever else goes wrong.
  lemma SecondRollbackChangesNothing(files: Files, active: string, f: RollbackFaults, g: RollbackFaults)
    requires RollbackRun(files, active, f).ok
    ensures RollbackRun(Last(RollbackRun(files, active, f).states, files), active, g) == Run([], false)
  {
  }
}
