/** The debounced saving of node.py as a state machine: `_schedule_persist`, `_persist_worker`
    and the end of `stop`. Any save may fail, which ends whoever makes it with an exception. */
module PersistWorker {
  import opened Types

  /** Where a worker task stands: created but not run, in its sleep, over, or over with the
      exception of a failed save. */
  datatype Stage = Created | Sleeping | Finished | Failed

  datatype Task = Task(stage: Stage, cancelled: bool)

  /** `done()`. */
  predicate Done(t: Task) {
    t.stage.Finished? || t.stage.Failed?
  }

  /** An attempt to save a value; one that fails may have replaced some of the files. */
  datatype Save<T> = Save(value: T, complete: bool)

  /** `disk` is what the last completed save wrote; `saves` are all attempts to save; `tasks` are all
      worker tasks ever created; `current` is `_persist_task`; `awaiting` is the worker `stop` has
      cancelled and waits for. */
  datatype Saver<T> = Saver(memory: T, disk: T, saves: seq<Save<T>>, pending: bool, tasks: seq<Task>,
                            current: Option<nat>, awaiting: Option<nat>)

  /** `ok`: the save made in this step, if any, succeeds. */
  datatype Step<T> =
    | Change(value: T)                // memory changes and `_schedule_persist` runs
    | Resume(task: nat, ok: bool)     // the event loop resumes a worker task
    | StopBegins(ok: bool)            // `stop` clears the flag and cancels the worker
    | StopEnds(ok: bool)              // `stop` goes on after the worker and saves

  predicate Over<T>(s: Saver<T>, i: nat) {
    i < |s.tasks| && Done(s.tasks[i])
  }

  predicate Died<T>(s: Saver<T>, i: nat) {
    i < |s.tasks| && s.tasks[i].stage.Failed?
  }

  /** `_persist_state`. */
  function Saving<T>(s: Saver<T>, ok: bool): Saver<T> {
    s.(disk := if ok then s.memory else s.disk, saves := s.saves + [Save(s.memory, ok)])
  }

  /** `_schedule_persist`. */
  function Schedule<T>(s: Saver<T>): Saver<T> {
    if s.current.Some? && s.current.value < |s.tasks| && !Over(s, s.current.value) then s.(pending := true)
    else s.(pending := true, tasks := s.tasks + [Task(Created, false)], current := Some(|s.tasks|))
  }

  /** A change of memory that is scheduled for saving. */
  function Changed<T>(s: Saver<T>, value: T): Saver<T> {
    Schedule(s.(memory := value))
  }

  /** One uninterrupted run of `_persist_worker`: from its start or from the end of
      its sleep to the next sleep or to its end. */
  function Resumed<T>(s: Saver<T>, i: nat, ok: bool): Saver<T> {
    if i >= |s.tasks| || Over(s, i) then s
    else if s.tasks[i].cancelled then s.(tasks := s.tasks[i := Task(Finished, true)])
    else
      var tried := if s.tasks[i].stage.Sleeping? then Saving(s, ok) else s;
      if s.tasks[i].stage.Sleeping? && !ok then tried.(tasks := s.tasks[i := Task(Failed, false)])
      else if s.pending then tried.(pending := false, tasks := s.tasks[i := Task(Sleeping, false)])
      else tried.(tasks := s.tasks[i := Task(Finished, false)])
  }

  function StopBegun<T>(s: Saver<T>, ok: bool): Saver<T> {
    if s.awaiting.Some? then s
    else if s.current.None? || s.current.value >= |s.tasks| then
      Saving(s, ok).(pending := false)
    else
      var i := s.current.value;
      var tasks := if Over(s, i) then s.tasks else s.tasks[i := s.tasks[i].(cancelled := true)];
      s.(pending := false, tasks := tasks, awaiting := Some(i))
  }

  /** Awaiting a worker that died of a failed save raises its exception again, and `stop` ends there. */
  function StopEnded<T>(s: Saver<T>, ok: bool): Saver<T> {
    if s.awaiting.None? || !Over(s, s.awaiting.value) then s
    else if Died(s, s.awaiting.value) then s.(awaiting := None)
    else Saving(s, ok).(current := None, awaiting := None)
  }

  function After<T>(s: Saver<T>, step: Step<T>): Saver<T> {
    match step
    case Change(value) => Changed(s, value)
    case Resume(i, ok) => Resumed(s, i, ok)
    case StopBegins(ok) => StopBegun(s, ok)
    case StopEnds(ok) => StopEnded(s, ok)
  }

  function Run<T>(s: Saver<T>, steps: seq<Step<T>>): Saver<T>
    decreases |steps|
  {
    if steps == [] then s else Run(After(s, steps[0]), steps[1..])
  }

  /** A node that has just saved what it holds and has no worker. */
  function Idle<T>(value: T): Saver<T> {
    Saver(value, value, [Save(value, true)], false, [], None, None)
  }

  /** No save fails in the step. */
  predicate Reliable<T>(step: Step<T>) {
    step.Change? || step.ok
  }

  predicate AllReliable<T>(steps: seq<Step<T>>) {
    forall k :: 0 <= k < |steps| ==> Reliable(steps[k])
  }

  // ---------- what holds whatever fails ----------

  /** A worker that is awaited is over or cancelled, and a cancelled current worker is awaited. */
  ghost predicate Orderly<T>(s: Saver<T>) {
    && (s.current.Some? ==> s.current.value < |s.tasks|)
    && (s.awaiting.Some? ==> s.awaiting.value < |s.tasks| && (Over(s, s.awaiting.value) || s.tasks[s.awaiting.value].cancelled))
    && (s.current.Some? && !Over(s, s.current.value) && s.tasks[s.current.value].cancelled ==> s.awaiting == s.current)
  }

  lemma StepOrderly<T>(s: Saver<T>, step: Step<T>)
    requires Orderly(s)
    ensures Orderly(After(s, step))
  {
  }

  lemma {:induction false} RunOrderly<T>(s: Saver<T>, steps: seq<Step<T>>)
    requires Orderly(s)
    ensures Orderly(Run(s, steps))
    decreases |steps|
  {
    if steps != [] {
      StepOrderly(s, steps[0]);
      RunOrderly(After(s, steps[0]), steps[1..]);
    }
  }

  /** The first attempt completed; after a completed one the disk holds its value. */
  ghost predicate SavesFit<T>(s: Saver<T>) {
    && s.saves != [] && s.saves[0].complete
    && (s.saves[|s.saves| - 1].complete ==> s.disk == s.saves[|s.saves| - 1].value)
  }

  /** A step adds at most one attempt, of what is in memory. */
  lemma StepSaves<T>(s: Saver<T>, step: Step<T>)
    requires SavesFit(s)
    ensures var next := After(s, step);
      && SavesFit(next)
      && (next.saves == s.saves || exists ok :: next.saves == s.saves + [Save(s.memory, ok)])
      && (next.disk == s.disk || next.disk == s.memory)
  {
  }

  // ---------- nothing is lost while saves succeed ----------

  /** Task `i` will save: it sleeps before a save, or it will start one because the flag is set. */
  predicate WillSave<T>(s: Saver<T>, i: nat) {
    i < |s.tasks| && !s.tasks[i].cancelled && (s.tasks[i].stage.Sleeping? || (s.tasks[i].stage.Created? && s.pending))
  }

  /** What is in memory but not on disk is going to be saved, by a worker or by `stop`. */
  ghost predicate NothingLost<T>(s: Saver<T>) {
    && Orderly(s)
    && (s.memory != s.disk ==> !(s.current.Some? && Died(s, s.current.value)))
    && (s.memory != s.disk ==> (s.awaiting.Some? && !Died(s, s.awaiting.value)) || exists i: nat :: WillSave(s, i))
  }

  /** Whatever has failed before, a change starts afresh. */
  lemma ChangeLosesNothing<T>(s: Saver<T>, value: T)
    requires Orderly(s)
    ensures NothingLost(Changed(s, value))
  {
    var next := Changed(s, value);
    StepOrderly(s, Change(value));
    if !(next.awaiting.Some? && !Died(next, next.awaiting.value)) {
      assert WillSave(next, next.current.value);
    }
  }

  lemma ResumeLosesNothing<T>(s: Saver<T>, i: nat)
    requires NothingLost(s)
    ensures NothingLost(Resumed(s, i, true))
  {
    var next := Resumed(s, i, true);
    StepOrderly(s, Resume(i, true));
    if s.memory != next.disk && !(s.awaiting.Some? && !Died(s, s.awaiting.value)) {
      var k: nat :| WillSave(s, k);
      if k == i || (i < |s.tasks| && s.tasks[i].stage.Created? && s.pending && !s.tasks[i].cancelled) {
        assert WillSave(next, i);
      } else {
        assert WillSave(next, k);
      }
    }
  }

  lemma StopLosesNothing<T>(s: Saver<T>)
    requires NothingLost(s)
    ensures NothingLost(StopBegun(s, true)) && NothingLost(StopEnded(s, true))
  {
    StepOrderly(s, StopBegins(true));
    StepOrderly(s, StopEnds(true));
    var end := StopEnded(s, true);
    if end.memory != end.disk && s.awaiting.Some? && Died(s, s.awaiting.value) {
      var k: nat :| WillSave(s, k);
      assert WillSave(end, k);
    }
  }

  lemma StepLosesNothing<T>(s: Saver<T>, step: Step<T>)
    requires NothingLost(s) && Reliable(step)
    ensures NothingLost(After(s, step))
  {
    match step
    case Change(value) => ChangeLosesNothing(s, value);
    case Resume(i, _) => ResumeLosesNothing(s, i);
    case StopBegins(_) => StopLosesNothing(s);
    case StopEnds(_) => StopLosesNothing(s);
  }

  lemma {:induction false} ReliableRunLosesNothing<T>(s: Saver<T>, steps: seq<Step<T>>)
    requires NothingLost(s) && AllReliable(steps)
    ensures NothingLost(Run(s, steps))
    decreases |steps|
  {
    if steps != [] {
      assert Reliable(steps[0]);
      StepLosesNothing(s, steps[0]);
      ReliableRunLosesNothing(After(s, steps[0]), steps[1..]);
    }
  }

  /** In every interleaving, whatever saves have failed before: if none fails after some change,
      nothing is lost from that change on. */
  lemma RunLosesNothing<T>(start: T, before: seq<Step<T>>, value: T, later: seq<Step<T>>)
    requires AllReliable(later)
    ensures NothingLost(Run(Changed(Run(Idle(start), before), value), later))
  {
    RunOrderly(Idle(start), before);
    var s := Run(Idle(start), before);
    ChangeLosesNothing(s, value);
    ReliableRunLosesNothing(Changed(s, value), later);
  }

  /** All workers are over and no stop is under way. */
  ghost predicate Quiet<T>(s: Saver<T>) {
    s.awaiting.None? && forall i: nat :: i < |s.tasks| ==> Over(s, i)
  }

  lemma QuietIsSaved<T>(s: Saver<T>)
    requires NothingLost(s) && Quiet(s)
    ensures s.disk == s.memory
  {
    forall i: nat ensures !WillSave(s, i) {
      assert i < |s.tasks| ==> Over(s, i);
    }
  }

  /** Then a quiet disk equals memory. */
  lemma QuietMeansSaved<T>(start: T, before: seq<Step<T>>, value: T, later: seq<Step<T>>)
    requires AllReliable(later)
    ensures var s := Run(Changed(Run(Idle(start), before), value), later); Quiet(s) ==> s.disk == s.memory
  {
    RunLosesNothing(start, before, value, later);
    var s := Run(Changed(Run(Idle(start), before), value), later);
    if Quiet(s) {
      QuietIsSaved(s);
    }
  }

  /** The condition is needed: one failed save leaves everything quiet and the change unsaved,
      and a later `stop` raises the same exception without saving. */
  lemma FailedSaveIsNotRepeated<T>(start: T, value: T)
    requires start != value
    ensures var s := Run(Changed(Idle(start), value), [Resume(0, true), Resume(0, false)]);
      && Quiet(s) && s.disk == start && s.memory == value
      && StopEnded(StopBegun(s, true), true).awaiting.None? && StopEnded(StopBegun(s, true), true).disk == start
  {
    var steps: seq<Step<T>> := [Resume(0, true), Resume(0, false)];
    assert steps[1..] == [Resume(0, false)] && steps[1..][1..] == [];
    var s := Resumed(Resumed(Changed(Idle(start), value), 0, true), 0, false);
    assert s.tasks == [Task(Failed, false)];
  }

  // ---------- `stop` ----------

  /** `stop` never waits for ever. From any reachable state it saves at once, or it waits for a worker
      that one resumption ends; then it saves exactly when that worker has not died of a failed
      save and its own save succeeds, whatever runs while it waits. */
  lemma StopSavesExactly<T>(start: T, before: seq<Step<T>>, during: seq<Step<T>>, ok: bool)
    ensures var s := Run(Idle(start), before);
      s.awaiting.None? && StopBegun(s, true).awaiting.None? ==> StopBegun(s, true).disk == s.memory
    ensures var s := Run(StopBegun(Run(Idle(start), before), true), during);
      s.awaiting.Some? ==>
        var end := StopEnded(Resumed(s, s.awaiting.value, ok), ok);
        && end.awaiting.None? && end.memory == s.memory
        && end == if Died(s, s.awaiting.value) then s.(awaiting := None)
                  else Saving(s, ok).(tasks := end.tasks, current := None, awaiting := None)
  {
    RunOrderly(Idle(start), before);
    var stopping := StopBegun(Run(Idle(start), before), true);
    StepOrderly(Run(Idle(start), before), StopBegins(true));
    RunOrderly(stopping, during);
  }

  /** From any state in which nothing is lost, some task brings the disk up to date within
      two resumptions that do not fail. */
  lemma SavedSoon<T>(s: Saver<T>)
    requires NothingLost(s) && s.awaiting.None? && s.disk != s.memory
    ensures exists i: nat :: Resumed(Resumed(s, i, true), i, true).disk == s.memory
  {
    var i: nat :| WillSave(s, i);
    assert Resumed(Resumed(s, i, true), i, true).disk == s.memory;
  }

  // ---------- what each step changes ----------

  /** A change is scheduled: the flag is set and a live worker is current, the old one if it still lives
      and otherwise one new task. Nothing is saved yet. */
  lemma ChangeExactly<T>(s: Saver<T>, value: T)
    requires Orderly(s)
    ensures var next := Changed(s, value);
      && next.memory == value && next.pending && next.disk == s.disk && next.saves == s.saves && next.awaiting == s.awaiting
      && next.current.Some? && next.current.value < |next.tasks| && !Done(next.tasks[next.current.value])
      && (s.current.Some? && !Done(s.tasks[s.current.value]) ==> next.tasks == s.tasks && next.current == s.current)
      && (s.current.None? || Done(s.tasks[s.current.value]) ==>
            next.tasks == s.tasks + [Task(Created, false)] && next.current == Some(|s.tasks|))
  {
  }

  /** A worker saves exactly when it wakes from its sleep uncancelled. Then, or when it starts, it goes to
      sleep if there are changes, which clears the flag, and is over if there are none; a failed save
      or a cancellation ends it and leaves the flag. Only its own task changes. */
  lemma ResumeExactly<T>(s: Saver<T>, i: nat, ok: bool)
    requires i < |s.tasks|
    ensures var t, next := s.tasks[i], Resumed(s, i, ok);
      var wakes := t.stage.Sleeping? && !t.cancelled;
      && next.memory == s.memory && next.current == s.current && next.awaiting == s.awaiting
      && |next.tasks| == |s.tasks| && (forall j :: 0 <= j < |s.tasks| && j != i ==> next.tasks[j] == s.tasks[j])
      && next.saves == (if wakes then s.saves + [Save(s.memory, ok)] else s.saves)
      && next.disk == (if wakes && ok then s.memory else s.disk)
      && (Done(t) ==> next == s)
      && (!Done(t) && t.cancelled ==> next.tasks[i].stage.Finished? && next.pending == s.pending)
      && (wakes && !ok ==> next.tasks[i].stage.Failed? && next.pending == s.pending)
      && (!Done(t) && !t.cancelled && (wakes ==> ok) ==>
            !next.pending && !next.tasks[i].cancelled
            && (if s.pending then next.tasks[i].stage.Sleeping? else next.tasks[i].stage.Finished?))
  {
  }

  /** A stop clears the flag. Without a worker it saves; otherwise it cancels the current one if that still
      lives, touches no other, and waits for it. A stop already waiting changes nothing. */
  lemma StopBeginsExactly<T>(s: Saver<T>, ok: bool)
    requires Orderly(s)
    ensures var next := StopBegun(s, ok);
      if s.awaiting.Some? then next == s
      else
        && !next.pending && next.memory == s.memory && next.current == s.current && |next.tasks| == |s.tasks|
        && (s.current.None? ==>
              next.tasks == s.tasks && next.awaiting.None? && next.saves == s.saves + [Save(s.memory, ok)]
              && next.disk == (if ok then s.memory else s.disk))
        && (s.current.Some? ==>
              && next.awaiting == s.current && next.saves == s.saves && next.disk == s.disk
              && (forall j :: 0 <= j < |s.tasks| && j != s.current.value ==> next.tasks[j] == s.tasks[j])
              && next.tasks[s.current.value].stage == s.tasks[s.current.value].stage
              && (Done(s.tasks[s.current.value]) || next.tasks[s.current.value].cancelled))
  {
  }
}
