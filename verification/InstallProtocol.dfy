/** Staged replacement of a release directory, under a file system in which every rename and
    every removal may fail, removals may fail partway, and a run may stop at any point. */
module InstallProtocol {
  import opened Wrappers

  /** A directory is a whole bundle, or what an interrupted removal left of one. */
  datatype Dir = Complete(bundle: nat) | Partial

  datatype Place = Stage | Target | Backup

  /** What the three paths hold, and as history the bundle last renamed from stage to target. */
  datatype World = World(stage: Option<Dir>, target: Option<Dir>, backup: Option<Dir>, installed: Option<nat>) {
    function At(p: Place): Option<Dir> {
      match p
      case Stage => stage
      case Target => target
      case Backup => backup
    }

    function Put(p: Place, d: Option<Dir>): World {
      match p
      case Stage => this.(stage := d)
      case Target => this.(target := d)
      case Backup => this.(backup := d)
    }
  }

  /** What the environment makes of one file-system operation. */
  datatype Outcome = Works | Fails | FailsPartway | Stops | StopsPartway

  datatype Status = Done | Failed | Halted

  /** A rename happens completely or not at all. It needs a source and a free destination. */
  function Rename(w: World, from: Place, to: Place, o: Outcome): (World, Status) {
    match o
    case Stops => (w, Halted)
    case StopsPartway => (w, Halted)
    case Works =>
      if w.At(from).None? || w.At(to).Some? then (w, Failed)
      else
        var moved := w.Put(to, w.At(from)).Put(from, None);
        var installs := from.Stage? && to.Target? && w.stage.value.Complete?;
        (if installs then moved.(installed := Some(w.stage.value.bundle)) else moved, Done)
    case _ => (w, Failed)
  }

  /** A removal may leave a part behind, and may be stopped in the middle. */
  function Remove(w: World, p: Place, o: Outcome): (World, Status) {
    if w.At(p).None? then (w, if o.Stops? || o.StopsPartway? then Halted else Failed)
    else
      match o
      case Works => (w.Put(p, None), Done)
      case Fails => (w, Failed)
      case FailsPartway => (w.Put(p, Some(Partial)), Failed)
      case Stops => (w, Halted)
      case StopsPartway => (w.Put(p, Some(Partial)), Halted)
  }

  /** The environment's moves in one run, in order: the first clean-up or restoration, parking,
      installing, and the final removal or rollback. */
  datatype Moves = Moves(first: Outcome, park: Outcome, install: Outcome, last: Outcome)

  datatype InstallResult =
    | Installed
    | StaleBackupKept
    | NotRestored
    | NotParked
    | InstalledBackupKept
    | RolledBack
    | RollbackFailed
    | NothingInstalled
    | Interrupted

  // The invariant

  /** The most recently installed bundle is whole: at the target, or at the backup while the target
      is absent. When the backup holds anything else, the target is the installed bundle. */
  ghost predicate Safe(w: World) {
    match w.installed
    case None => w.target.None? && w.backup.None?
    case Some(id) =>
      || w.target == Some(Complete(id))
      || (w.target.None? && w.backup == Some(Complete(id)))
  }

  /** The directory to install is complete, if it is there at all. */
  predicate StageReady(w: World) {
    w.stage.Some? ==> w.stage.value.Complete?
  }

  class Bundles {
    var world: World

    constructor ()
      ensures world == EMPTY
    {
      world := EMPTY;
    }

    method RenameDir(from: Place, to: Place, o: Outcome) returns (s: Status)
      modifies this
      ensures (world, s) == Rename(old(world), from, to, o)
    {
      var r := Rename(world, from, to, o);
      world, s := r.0, r.1;
    }

    method RemoveDir(p: Place, o: Outcome) returns (s: Status)
      modifies this
      ensures (world, s) == Remove(old(world), p, o)
    {
      var r := Remove(world, p, o);
      world, s := r.0, r.1;
    }

    /** The moves decide the result, and where the directories end up. From a safe world with a complete
        stage, the invariant holds wherever the run ends; success means the staged bundle is at the
        target and nothing is at the backup, and every other result says what is where. */
    method InstallDirectoryWith(moves: Moves) returns (r: InstallResult)
      modifies this
      ensures (world, r) == Install(old(world), moves)
      ensures ResultOfMoves(old(world), moves, r) && EndsAt(old(world), moves, world)
      ensures Safe(old(world)) && StageReady(old(world)) ==> Safe(world) && ResultMeans(old(world), world, r)
    {
      hide Safe;
      hide ResultMeans;
      hide ResultOfMoves;
      hide EndsAt;
      MovesDecide(world, moves);
      if Safe(world) && StageReady(world) {
        InstallKeepsSafe(world, moves);
      }
      var targetExists, backupExists := world.target.Some?, world.backup.Some?;
      var s: Status;
      if targetExists && backupExists {
        s := RemoveDir(Backup, moves.first);
        if s != Done {
          return if s.Halted? then Interrupted else StaleBackupKept;
        }
      } else if backupExists {
        s := RenameDir(Backup, Target, moves.first);
        if s != Done {
          return if s.Halted? then Interrupted else NotRestored;
        }
      }
      var hadPrevious := targetExists || backupExists;
      if hadPrevious {
        s := RenameDir(Target, Backup, moves.park);
        if s != Done {
          return if s.Halted? then Interrupted else NotParked;
        }
      }
      s := RenameDir(Stage, Target, moves.install);
      if s.Halted? {
        return Interrupted;
      }
      if s.Done? {
        if hadPrevious {
          s := RemoveDir(Backup, moves.last);
          if s != Done {
            return if s.Halted? then Interrupted else InstalledBackupKept;
          }
        }
        return Installed;
      }
      if hadPrevious {
        s := RenameDir(Backup, Target, moves.last);
        if s.Halted? {
          return Interrupted;
        }
        return if s.Done? then RolledBack else RollbackFailed;
      }
      return NothingInstalled;
    }
  }

  const EMPTY := World(None, None, None, None)

  // One run on values

  /** Clears the way: removes a stale backup, or restores a bundle that only the backup holds. */
  function Recover(w: World, o: Outcome): (World, Option<InstallResult>) {
    if w.backup.None? then (w, None)
    else
      var (w', s) := if w.target.Some? then Remove(w, Backup, o) else Rename(w, Backup, Target, o);
      (w', if s.Done? then None
           else Some(if s.Halted? then Interrupted else if w.target.Some? then StaleBackupKept else NotRestored))
  }

  function Park(w: World, o: Outcome): (World, Option<InstallResult>) {
    if w.target.None? then (w, None)
    else
      var (w', s) := Rename(w, Target, Backup, o);
      (w', if s.Done? then None else Some(if s.Halted? then Interrupted else NotParked))
  }

  /** Installs the stage, then removes the parked bundle, or puts it back. */
  function Swap(w: World, install: Outcome, last: Outcome): (World, InstallResult) {
    var hadPrevious := w.backup.Some?;
    var (w1, s1) := Rename(w, Stage, Target, install);
    if s1.Halted? then (w1, Interrupted)
    else if !hadPrevious then (w1, if s1.Done? then Installed else NothingInstalled)
    else if s1.Done? then
      var (w2, s2) := Remove(w1, Backup, last);
      (w2, if s2.Done? then Installed else if s2.Halted? then Interrupted else InstalledBackupKept)
    else
      var (w2, s2) := Rename(w1, Backup, Target, last);
      (w2, if s2.Done? then RolledBack else if s2.Halted? then Interrupted else RollbackFailed)
  }

  function Install(w: World, moves: Moves): (World, InstallResult) {
    var (w1, r1) := Recover(w, moves.first);
    if r1.Some? then (w1, r1.value)
    else
      var (w2, r2) := Park(w1, moves.park);
      if r2.Some? then (w2, r2.value) else Swap(w2, moves.install, moves.last)
  }

  // What the moves lead to

  predicate Failing(o: Outcome) {
    o.Fails? || o.FailsPartway?
  }

  /** Nothing is at the backup, or the first move cleared it away. */
  predicate Cleared(w: World, moves: Moves) {
    w.backup.Some? ==> moves.first.Works?
  }

  /** The way is clear for the staged directory: what was installed before, if anything, is parked. */
  predicate Parked(w: World, moves: Moves) {
    Cleared(w, moves) && (Previous(w).Some? ==> moves.park.Works?)
  }

  /** The staged directory can be renamed, and is. */
  predicate Installs(w: World, moves: Moves) {
    w.stage.Some? && moves.install.Works?
  }

  predicate InstallFails(w: World, moves: Moves) {
    Failing(moves.install) || (w.stage.None? && moves.install.Works?)
  }

  /** Exactly when a run ends in which result. */
  ghost predicate ResultOfMoves(w: World, moves: Moves, r: InstallResult) {
    var had := Previous(w).Some?;
    && (r.StaleBackupKept? <==> w.target.Some? && w.backup.Some? && Failing(moves.first))
    && (r.NotRestored? <==> w.target.None? && w.backup.Some? && Failing(moves.first))
    && (r.NotParked? <==> Cleared(w, moves) && had && Failing(moves.park))
    && (r.Installed? <==> Parked(w, moves) && Installs(w, moves) && (had ==> moves.last.Works?))
    && (r.InstalledBackupKept? <==> Parked(w, moves) && Installs(w, moves) && had && Failing(moves.last))
    && (r.RolledBack? <==> Parked(w, moves) && InstallFails(w, moves) && had && moves.last.Works?)
    && (r.RollbackFailed? <==> Parked(w, moves) && InstallFails(w, moves) && had && Failing(moves.last))
    && (r.NothingInstalled? <==> Parked(w, moves) && InstallFails(w, moves) && !had)
  }

  /** What an attempt to remove `d` leaves. */
  function Remains(d: Option<Dir>, o: Outcome): Option<Dir> {
    match o
    case Works => None
    case Fails => d
    case Stops => d
    case FailsPartway => Some(Partial)
    case StopsPartway => Some(Partial)
  }

  /** Where the directories are after a run, by how far the moves let it get. */
  ghost predicate EndsAt(w: World, moves: Moves, after: World) {
    var previous := Previous(w);
    if !Cleared(w, moves) then
      after == if w.target.Some? then w.(backup := Remains(w.backup, moves.first)) else w
    else if !Parked(w, moves) then
      after == w.(target := previous, backup := None)
    else if Installs(w, moves) then
      && after.target == w.stage && after.stage.None?
      && after.backup == (if previous.Some? then Remains(previous, moves.last) else None)
    else if InstallFails(w, moves) && moves.last.Works? then
      after == w.(target := previous, backup := None)
    else
      after == w.(target := None, backup := previous)
  }

  lemma RecoverDecides(w: World, moves: Moves)
    ensures
      var (after, r) := Recover(w, moves.first);
      if Cleared(w, moves) then r.None? && after == w.(target := Previous(w), backup := None)
      else
        && r == Some(if !Failing(moves.first) then Interrupted
                     else if w.target.Some? then StaleBackupKept else NotRestored)
        && after == if w.target.Some? then w.(backup := Remains(w.backup, moves.first)) else w
  {
  }

  lemma ParkDecides(w: World, o: Outcome)
    requires w.backup.None?
    ensures
      var (after, r) := Park(w, o);
      if w.target.None? || o.Works? then r.None? && after == w.(target := None, backup := w.target)
      else r == Some(if Failing(o) then NotParked else Interrupted) && after == w
  {
  }

  lemma SwapDecides(w: World, moves: Moves)
    requires w.target.None?
    ensures
      var (after, r) := Swap(w, moves.install, moves.last);
      if Installs(w, moves) then
        && after.target == w.stage && after.stage.None?
        && after.backup == (if w.backup.Some? then Remains(w.backup, moves.last) else None)
        && r == if w.backup.None? || moves.last.Works? then Installed
                else if Failing(moves.last) then InstalledBackupKept else Interrupted
      else if !InstallFails(w, moves) then r == Interrupted && after == w
      else if w.backup.None? then r == NothingInstalled && after == w
      else if moves.last.Works? then r == RolledBack && after == w.(target := w.backup, backup := None)
      else r == (if Failing(moves.last) then RollbackFailed else Interrupted) && after == w
  {
  }

  /** For every world and all moves. */
  lemma MovesDecide(w: World, moves: Moves)
    ensures
      var (after, r) := Install(w, moves);
      ResultOfMoves(w, moves, r) && EndsAt(w, moves, after)
  {
    hide Recover;
    hide Park;
    hide Swap;
    RecoverDecides(w, moves);
    var (w1, r1) := Recover(w, moves.first);
    if r1.None? {
      ParkDecides(w1, moves.park);
      var (w2, r2) := Park(w1, moves.park);
      if r2.None? {
        SwapDecides(w2, moves);
      }
    }
  }

  /** A previous bundle is put back whenever installing fails and the rollback works. */
  lemma FailedInstallIsRolledBack(w: World, moves: Moves)
    requires Previous(w).Some? && Parked(w, moves) && InstallFails(w, moves)
    ensures
      var (after, r) := Install(w, moves);
      && (moves.last.Works? <==> r.RolledBack?)
      && (moves.last.Works? ==> after.target == Previous(w) && after.backup.None? && after.stage == w.stage)
      && (r.RollbackFailed? <==> Failing(moves.last))
  {
    hide Install;
    MovesDecide(w, moves);
  }

  /** What each result says about the three paths. */
  ghost predicate ResultMeans(before: World, after: World, r: InstallResult) {
    var same := after.installed == before.installed && after.stage == before.stage;
    var previous := Previous(before);
    match r
    case Installed =>
      && after.installed.Some? && before.stage == Some(Complete(after.installed.value))
      && after.target == before.stage && after.stage.None? && after.backup.None?
    case InstalledBackupKept =>
      && after.installed.Some? && before.stage == Some(Complete(after.installed.value))
      && after.target == before.stage && after.stage.None?
      && previous.Some? && (after.backup == previous || after.backup == Some(Partial))
    case StaleBackupKept => same && after.target == before.target && before.target.Some? && after.backup.Some?
    case NotRestored => after == before && before.target.None? && before.backup.Some?
    case NotParked => same && previous.Some? && after.target == previous && after.backup.None?
    case RolledBack => same && previous.Some? && after.target == previous && after.backup.None?
    case RollbackFailed => same && previous.Some? && after.target.None? && after.backup == previous
    case NothingInstalled => after == before && before.target.None? && before.backup.None?
    case Interrupted => true
  }

  /** The bundle in place before the run: the target's, or the one only the backup holds. */
  function Previous(w: World): Option<Dir> {
    if w.target.Some? then w.target else w.backup
  }

  lemma RecoverMeans(w: World, o: Outcome)
    requires Safe(w)
    ensures
      var (after, r) := Recover(w, o);
      && Safe(after) && after.installed == w.installed && after.stage == w.stage
      && (r.None? ==> after.target == Previous(w) && after.backup.None?)
      && (r.Some? ==> !r.value.RollbackFailed? && ResultMeans(w, after, r.value))
  {
  }

  lemma ParkMeans(w: World, o: Outcome)
    requires Safe(w) && w.backup.None?
    ensures
      var (after, r) := Park(w, o);
      && Safe(after) && after.installed == w.installed && after.stage == w.stage
      && (r.None? ==> after.target.None? && after.backup == w.target)
      && (r.Some? ==> r.value.Interrupted? || (r.value.NotParked? && after == w && w.target.Some?))
  {
  }

  lemma SwapMeans(w: World, install: Outcome, last: Outcome)
    requires Safe(w) && StageReady(w) && w.target.None?
    ensures
      var (after, r) := Swap(w, install, last);
      Safe(after) && ResultMeans(w, after, r) && !r.StaleBackupKept? && !r.NotRestored? && !r.NotParked?
  {
  }

  /** Whatever the environment does, a run keeps the invariant, and its result is truthful. */
  lemma InstallKeepsSafe(w: World, moves: Moves)
    requires Safe(w) && StageReady(w)
    ensures
      var (after, r) := Install(w, moves);
      Safe(after) && ResultMeans(w, after, r)
  {
    hide Recover;
    hide Park;
    hide Swap;
    RecoverMeans(w, moves.first);
    var (w1, r1) := Recover(w, moves.first);
    if r1.None? {
      ParkMeans(w1, moves.park);
      var (w2, r2) := Park(w1, moves.park);
      if r2.None? {
        SwapMeans(w2, moves.install, moves.last);
      }
    }
  }

  // Any sequence of runs

  /** One run: a complete bundle is staged, then the protocol runs under the environment's moves. */
  datatype Run = Run(bundle: nat, moves: Moves)

  function Staged(w: World, bundle: nat): World {
    w.(stage := Some(Complete(bundle)))
  }

  function RunAll(w: World, runs: seq<Run>): World {
    if runs == [] then w
    else
      var last := runs[|runs| - 1];
      Install(Staged(RunAll(w, runs[..|runs| - 1]), last.bundle), last.moves).0
  }

  /** Main theorem: from any safe start, after any sequence of runs, each with any failures and any
      stop, the most recently installed bundle is whole, at the target or at the backup while the
      target is absent; a partial backup implies a complete target. That bundle was installed
      before, or staged by one of the runs. */
  lemma {:induction false} RunsKeepTheBundle(start: World, runs: seq<Run>)
    requires Safe(start)
    ensures
      var w := RunAll(start, runs);
      && Safe(w)
      && (w.target.Some? ==> w.installed.Some? && w.target == Some(Complete(w.installed.value)))
      && (w.backup == Some(Partial) ==> w.target.Some?)
      && (w.installed == start.installed
          || (w.installed.Some? && exists i :: 0 <= i < |runs| && runs[i].bundle == w.installed.value))
  {
    if runs != [] {
      var n := |runs| - 1;
      RunsKeepTheBundle(start, runs[..n]);
      var before := RunAll(start, runs[..n]);
      InstallKeepsSafe(Staged(before, runs[n].bundle), runs[n].moves);
      InstalledIsStagedOrKept(Staged(before, runs[n].bundle), runs[n].moves);
    }
  }

  /** A run installs its own bundle, or leaves the installed one. */
  lemma InstalledIsStagedOrKept(w: World, moves: Moves)
    requires w.stage.Some? && w.stage.value.Complete?
    ensures
      var after := Install(w, moves).0;
      after.installed == w.installed || after.installed == Some(w.stage.value.bundle)
  {
  }

  const UNDISTURBED := Moves(Works, Works, Works, Works)

  /** From whatever earlier runs left behind, one undisturbed run installs its bundle and cleans up. */
  lemma UndisturbedRunInstalls(start: World, runs: seq<Run>, bundle: nat)
    requires Safe(start)
    ensures
      RunAll(start, runs + [Run(bundle, UNDISTURBED)])
      == World(None, Some(Complete(bundle)), None, Some(bundle))
  {
    RunsKeepTheBundle(start, runs);
    var all := runs + [Run(bundle, UNDISTURBED)];
    assert all[..|all| - 1] == runs;
    UndisturbedInstall(Staged(RunAll(start, runs), bundle));
  }

  /** There is a gap: a run stopped between its two renames leaves the target absent, and the
      installed bundle only at the backup. */
  lemma TargetCanBeAbsent(w: World, bundle: nat)
    requires Safe(w) && w.installed.Some? && w.target.Some? && w.backup.None?
    ensures Install(Staged(w, bundle), UNDISTURBED.(install := Stops)).0
            == World(Some(Complete(bundle)), None, Some(Complete(w.installed.value)), w.installed)
  {
  }

  lemma UndisturbedInstall(w: World)
    requires Safe(w) && w.stage.Some? && w.stage.value.Complete?
    ensures Install(w, UNDISTURBED) == (World(None, w.stage, None, Some(w.stage.value.bundle)), Installed)
  {
  }
}
