/** Deletion of rejected stages with their custom tags by parallel workers, as a step system.

    Every registry call may fail, with or without having taken effect; a failed call stops its
    worker, and a fatal failure may stop the others anywhere. Runs follow one another, each reading
    the custom tag metadata anew. */
module RejectedStages {
  import opened Basics

  type StageID = string
  type Tag = string

  /** What the registry holds: stage images, custom tags, tag metadata, rejected markers. */
  datatype World = World(images: set<StageID>, tags: set<Tag>, metadata: map<Tag, StageID>, markers: set<StageID>)

  datatype Stage =
    | DeletingImage
    | DeletingTag(next: nat)
    | UnregisteringTag(next: nat)
    | DeletingMarker
    | Recording
    | Recorded
    | Stopped

  /** `linked` is the tag map the run was given, `deleted` what its workers have recorded. */
  datatype Run = Run(linked: map<StageID, seq<Tag>>, workers: map<StageID, Stage>, deleted: set<StageID>, failed: bool)

  /** `links` are the tags there were to begin with, `unread` those whose metadata some run could not
      read, `returned` the stages the finished runs reported. */
  datatype System = System(world: World, run: Option<Run>, links: map<Tag, StageID>, rejected: set<StageID>,
                           unread: set<Tag>, returned: set<StageID>)

  function Linked(run: Run, s: StageID): seq<Tag> {
    if s in run.linked then run.linked[s] else []
  }

  // ---- Steps.

  ghost predicate Init(st: System) {
    && st.run.None? && st.links == st.world.metadata && st.rejected == st.world.markers
    && st.unread == {} && st.returned == {}
  }

  /** A run starts: it knows every tag registered for a stage, except those it could not read. */
  ghost predicate Begin(st: System, st': System) {
    && st.run.None? && st'.run.Some?
    && st' == st.(run := st'.run, unread := st'.unread) && st.unread <= st'.unread
    && st'.run.value.deleted == {} && !st'.run.value.failed
    && (forall s :: s in st'.run.value.workers ==> st'.run.value.workers[s] == DeletingImage)
    && (forall t :: t in st.world.metadata ==>
          t in Linked(st'.run.value, st.world.metadata[t]) || t in st'.unread)
  }

  /** The worker of `s` makes a call whose effect is `done`, and goes on to `next`; or the call fails,
      with or without its effect, and the worker stops. */
  ghost predicate Call(st: System, st': System, s: StageID, done: World, next: Stage)
    requires st.run.Some?
  {
    var run := st.run.value;
    || st' == st.(world := done, run := Some(run.(workers := run.workers[s := next])))
    || Fails(st, st', s, done)
    || Fails(st, st', s, st.world)
  }

  /** Whether the failure is fatal is up to the error. */
  ghost predicate Fails(st: System, st': System, s: StageID, w: World)
    requires st.run.Some?
  {
    var run := st.run.value;
    && st'.run.Some? && (run.failed ==> st'.run.value.failed)
    && st' == st.(world := w, run := Some(run.(workers := run.workers[s := Stopped], failed := st'.run.value.failed)))
  }

  function AfterTag(run: Run, s: StageID, next: nat): Stage {
    if next < |Linked(run, s)| then DeletingTag(next) else DeletingMarker
  }

  ghost predicate Work(st: System, st': System, s: StageID)
    requires st.run.Some? && s in st.run.value.workers
  {
    var run, w := st.run.value, st.world;
    match run.workers[s]
    case DeletingImage => Call(st, st', s, w.(images := w.images - {s}), AfterTag(run, s, 0))
    case DeletingTag(i) =>
      i < |Linked(run, s)| && Call(st, st', s, w.(tags := w.tags - {Linked(run, s)[i]}), UnregisteringTag(i))
    case UnregisteringTag(i) =>
      i < |Linked(run, s)| && Call(st, st', s, w.(metadata := w.metadata - {Linked(run, s)[i]}), AfterTag(run, s, i + 1))
    case DeletingMarker => Call(st, st', s, w.(markers := w.markers - {s}), Recording)
    case Recording =>
      st' == st.(run := Some(run.(workers := run.workers[s := Recorded], deleted := run.deleted + {s})))
    case _ => false
  }

  /** An unfinished worker is cancelled after another one's fatal failure. */
  ghost predicate Cancel(st: System, st': System, s: StageID)
    requires st.run.Some? && s in st.run.value.workers
  {
    var run := st.run.value;
    run.failed && run.workers[s] != Recorded && st' == st.(run := Some(run.(workers := run.workers[s := Stopped])))
  }

  /** The run ends: a failed one reports nothing. */
  ghost predicate End(st: System, st': System) {
    && st.run.Some?
    && st' == st.(run := None, returned := st.returned + if st.run.value.failed then {} else st.run.value.deleted)
  }

  ghost predicate Next(st: System, st': System) {
    || Begin(st, st')
    || (st.run.Some? && exists s :: s in st.run.value.workers && (Work(st, st', s) || Cancel(st, st', s)))
    || End(st, st')
  }

  ghost predicate Behaviour(trace: seq<System>) {
    trace != [] && Init(trace[0]) && forall i :: 0 <= i < |trace| - 1 ==> Next(trace[i], trace[i + 1])
  }

  // ---- Safety.

  /** The stage image and the first `n` tags of the map are gone, their metadata too. */
  ghost predicate Gone(w: World, run: Run, s: StageID, n: nat) {
    && s !in w.images && n <= |Linked(run, s)|
    && forall i :: 0 <= i < n ==> Linked(run, s)[i] !in w.tags && Linked(run, s)[i] !in w.metadata
  }

  ghost predicate WorkerSound(w: World, run: Run, s: StageID)
    requires s in run.workers
  {
    match run.workers[s]
    case DeletingTag(i) => Gone(w, run, s, i) && i < |Linked(run, s)|
    case UnregisteringTag(i) => Gone(w, run, s, i) && i < |Linked(run, s)| && Linked(run, s)[i] !in w.tags
    case DeletingMarker => Gone(w, run, s, |Linked(run, s)|)
    case Recording => Gone(w, run, s, |Linked(run, s)|) && s !in w.markers
    case Recorded => Gone(w, run, s, |Linked(run, s)|) && s !in w.markers
    case _ => true
  }

  /** The stage is gone with every tag it was linked to, but for tags whose metadata was unreadable. */
  ghost predicate Cleared(st: System, s: StageID) {
    && s !in st.world.images
    && forall t :: t in st.links && st.links[t] == s && t !in st.unread ==> t !in st.world.tags && t !in st.world.metadata
  }

  ghost predicate Safe(st: System) {
    && (forall t :: t in st.world.metadata ==> t in st.links && st.links[t] == st.world.metadata[t])
    // A tag is unregistered only after it is deleted.
    && (forall t :: t in st.links && t !in st.world.metadata ==> t !in st.world.tags)
    // The marker goes last.
    && (forall s :: s in st.rejected && s !in st.world.markers ==> Cleared(st, s))
    && (forall s :: s in st.returned ==> s !in st.world.markers && Cleared(st, s))
    && (st.run.Some? ==> RunSafe(st, st.run.value))
  }

  ghost predicate RunSafe(st: System, run: Run) {
    && (forall s :: s in run.workers ==> WorkerSound(st.world, run, s))
    && (forall s :: s in run.deleted ==> s in run.workers && run.workers[s] == Recorded)
    // Every tag still registered for a stage is on its list or unreadable.
    && (forall t :: t in st.world.metadata ==> t in Linked(run, st.world.metadata[t]) || t in st.unread)
  }

  ghost predicate Shrinks(w: World, w': World) {
    && w'.images <= w.images && w'.tags <= w.tags && w'.markers <= w.markers && w'.metadata.Keys <= w.metadata.Keys
    && forall t :: t in w'.metadata ==> w'.metadata[t] == w.metadata[t]
  }

  /** With every listed tag gone, every tag the stage was ever linked to is. */
  lemma GoneIsCleared(st: System, run: Run, s: StageID)
    requires Safe(st) && st.run == Some(run) && Gone(st.world, run, s, |Linked(run, s)|)
    ensures Cleared(st, s)
  {
    forall t | t in st.links && st.links[t] == s && t !in st.unread
      ensures t !in st.world.tags && t !in st.world.metadata
    {
      assert t in st.world.metadata ==> t in Linked(run, s);
    }
  }

  /** One worker's step keeps everything, whatever the others are doing. */
  lemma StepSafe(st: System, st': System, s: StageID, w: World, pc: Stage, deleted: set<StageID>, failed: bool)
    requires Safe(st) && st.run.Some? && s in st.run.value.workers && Shrinks(st.world, w)
    requires st' == st.(world := w, run := Some(st.run.value.(workers := st.run.value.workers[s := pc], deleted := deleted, failed := failed)))
    requires WorkerSound(w, st'.run.value, s)
    requires forall t :: t in st.links && t !in w.metadata ==> t !in w.tags
    requires s in st.rejected && s !in w.markers ==> Cleared(st', s)
    requires w.markers >= st.world.markers - {s}
    requires st.run.value.workers[s] != Recorded
    requires deleted == st.run.value.deleted || (deleted == st.run.value.deleted + {s} && pc == Recorded)
    ensures Safe(st')
  {
    var run, run' := st.run.value, st'.run.value;
    forall x | x in run'.workers ensures WorkerSound(w, run', x) {
      if x != s { assert WorkerSound(st.world, run, x); }
    }
    forall x | x in st.rejected && x !in w.markers ensures Cleared(st', x) {
      if x != s { assert Cleared(st, x); }
    }
    forall x | x in st.returned ensures x !in w.markers && Cleared(st', x) {
      assert Cleared(st, x);
    }
  }

  lemma CallSafe(st: System, st': System, s: StageID, done: World, next: Stage)
    requires Safe(st) && st.run.Some? && s in st.run.value.workers && Call(st, st', s, done, next)
    requires Shrinks(st.world, done) && done.markers == st.world.markers && st.run.value.workers[s] != Recorded
    requires forall t :: t in st.links && t !in done.metadata ==> t !in done.tags
    requires WorkerSound(done, st.run.value.(workers := st.run.value.workers[s := next]), s)
    ensures Safe(st')
  {
    var run, run' := st.run.value, st'.run.value;
    assert s in st.rejected && s !in st.world.markers ==> Cleared(st, s);
    StepSafe(st, st', s, st'.world, run'.workers[s], run'.deleted, run'.failed);
  }

  lemma MarkerSafe(st: System, st': System, s: StageID)
    requires Safe(st) && st.run.Some? && s in st.run.value.workers && st.run.value.workers[s] == DeletingMarker
    requires Call(st, st', s, st.world.(markers := st.world.markers - {s}), Recording)
    ensures Safe(st')
  {
    var run, run' := st.run.value, st'.run.value;
    assert WorkerSound(st.world, run, s);
    GoneIsCleared(st, run, s);
    StepSafe(st, st', s, st'.world, run'.workers[s], run'.deleted, run'.failed);
  }

  lemma WorkSafe(st: System, st': System, s: StageID)
    requires Safe(st) && st.run.Some? && s in st.run.value.workers && Work(st, st', s)
    ensures Safe(st')
  {
    var run, w := st.run.value, st.world;
    assert WorkerSound(w, run, s);
    match run.workers[s]
    case DeletingImage => CallSafe(st, st', s, w.(images := w.images - {s}), AfterTag(run, s, 0));
    case DeletingTag(i) => CallSafe(st, st', s, w.(tags := w.tags - {Linked(run, s)[i]}), UnregisteringTag(i));
    case UnregisteringTag(i) =>
      CallSafe(st, st', s, w.(metadata := w.metadata - {Linked(run, s)[i]}), AfterTag(run, s, i + 1));
    case DeletingMarker => MarkerSafe(st, st', s);
    case Recording =>
      assert s in st.rejected ==> Cleared(st, s);
      StepSafe(st, st', s, w, Recorded, run.deleted + {s}, run.failed);
    case _ =>
  }

  lemma CancelSafe(st: System, st': System, s: StageID)
    requires Safe(st) && st.run.Some? && s in st.run.value.workers && Cancel(st, st', s)
    ensures Safe(st')
  {
    var run := st.run.value;
    assert s in st.rejected && s !in st.world.markers ==> Cleared(st, s);
    StepSafe(st, st', s, st.world, Stopped, run.deleted, run.failed);
  }

  lemma EndSafe(st: System, st': System)
    requires Safe(st) && End(st, st')
    ensures Safe(st')
  {
    var run := st.run.value;
    forall s | s in st'.returned ensures s !in st'.world.markers && Cleared(st', s) {
      if s !in st.returned {
        assert WorkerSound(st.world, run, s);
        GoneIsCleared(st, run, s);
      }
      assert Cleared(st, s);
    }
    forall s | s in st.rejected && s !in st.world.markers ensures Cleared(st', s) { assert Cleared(st, s); }
  }

  lemma BeginSafe(st: System, st': System)
    requires Safe(st) && Begin(st, st')
    ensures Safe(st')
  {
    forall s | Cleared(st, s) ensures Cleared(st', s) {}
  }

  lemma NextSafe(st: System, st': System)
    requires Safe(st) && Next(st, st')
    ensures Safe(st')
  {
    if Begin(st, st') {
      BeginSafe(st, st');
    } else if End(st, st') {
      EndSafe(st, st');
    } else {
      var s :| s in st.run.value.workers && (Work(st, st', s) || Cancel(st, st', s));
      if Work(st, st', s) { WorkSafe(st, st', s); } else { CancelSafe(st, st', s); }
    }
  }

  /** In every interleaving of workers, failures, cancellations and repeated runs, a removed marker
      means the stage image and every tag ever linked to it are gone, and only such stages are
      reported. */
  lemma {:induction false} MarkerGoesLast(trace: seq<System>, i: nat)
    requires Behaviour(trace) && i < |trace|
    ensures Safe(trace[i])
    ensures forall s :: (s in trace[i].rejected && s !in trace[i].world.markers) || s in trace[i].returned ==>
              s !in trace[i].world.images && s !in trace[i].world.markers
    ensures forall s :: (s in trace[i].rejected && s !in trace[i].world.markers) || s in trace[i].returned ==>
              forall t :: t in trace[i].links && trace[i].links[t] == s && t !in trace[i].unread ==>
                t !in trace[i].world.tags && t !in trace[i].world.metadata
  {
    if i > 0 {
      MarkerGoesLast(trace, i - 1);
      assert Next(trace[i - 1], trace[i - 1 + 1]);
      NextSafe(trace[i - 1], trace[i]);
    }
  }

  // ---- Runs without failures get everything done.

  /** A worker's call succeeds. */
  ghost predicate Advances(st: System, st': System, s: StageID) {
    && st.run.Some? && s in st.run.value.workers && Work(st, st', s)
    && st'.run.Some? && s in st'.run.value.workers && st'.run.value.workers[s] != Stopped
  }

  /** No worker has stopped, no failure was fatal, and what is recorded is what has come to its end. */
  ghost predicate OnCourse(st: System) {
    && st.run.Some? && !st.run.value.failed
    && (forall s :: s in st.run.value.workers ==> st.run.value.workers[s] != Stopped)
    && (forall s :: s in st.run.value.workers && st.run.value.workers[s] == Recorded ==> s in st.run.value.deleted)
    && st.run.value.deleted <= st.run.value.workers.Keys
  }

  lemma BeginOnCourse(st: System, st': System)
    requires Begin(st, st')
    ensures OnCourse(st')
  {
  }

  lemma AdvanceOnCourse(st: System, st': System, s: StageID)
    requires OnCourse(st) && Advances(st, st', s)
    ensures OnCourse(st') && st'.run.value.workers.Keys == st.run.value.workers.Keys && st'.returned == st.returned
    ensures st'.run.value.linked == st.run.value.linked
  {
  }

  /** How many calls a worker has before it. */
  function Ahead(run: Run, s: StageID): int
    requires s in run.workers
  {
    var n := |Linked(run, s)|;
    match run.workers[s]
    case DeletingImage => 2 * n + 3
    case DeletingTag(i) => 2 * (n - i) + 2
    case UnregisteringTag(i) => 2 * (n - i) + 1
    case DeletingMarker => 2
    case Recording => 1
    case _ => 0
  }

  /** Each step takes its worker one call further and leaves the others where they are, so a run
      without failures comes to an end. */
  lemma AdvanceCounts(st: System, st': System, s: StageID, x: StageID)
    requires Safe(st) && Advances(st, st', s) && x in st.run.value.workers
    ensures x in st'.run.value.workers
    ensures Ahead(st'.run.value, x) == Ahead(st.run.value, x) - (if x == s then 1 else 0)
  {
    var run, run' := st.run.value, st'.run.value;
    assert WorkerSound(st.world, run, s);
    assert Linked(run', x) == Linked(run, x);
  }

  /** A worker that is not done can go on. */
  lemma CanAdvance(st: System, s: StageID) returns (st': System)
    requires Safe(st) && OnCourse(st) && s in st.run.value.workers && st.run.value.workers[s] != Recorded
    ensures Advances(st, st', s)
  {
    var run, w := st.run.value, st.world;
    assert WorkerSound(w, run, s);
    match run.workers[s]
    case DeletingImage =>
      st' := st.(world := w.(images := w.images - {s}), run := Some(run.(workers := run.workers[s := AfterTag(run, s, 0)])));
    case DeletingTag(i) =>
      st' := st.(world := w.(tags := w.tags - {Linked(run, s)[i]}), run := Some(run.(workers := run.workers[s := UnregisteringTag(i)])));
    case UnregisteringTag(i) =>
      st' := st.(world := w.(metadata := w.metadata - {Linked(run, s)[i]}),
                 run := Some(run.(workers := run.workers[s := AfterTag(run, s, i + 1)])));
    case DeletingMarker =>
      st' := st.(world := w.(markers := w.markers - {s}), run := Some(run.(workers := run.workers[s := Recording])));
    case Recording =>
      st' := st.(run := Some(run.(workers := run.workers[s := Recorded], deleted := run.deleted + {s})));
  }

  ghost predicate Advance(st: System, st': System) {
    exists s :: Advances(st, st', s)
  }

  ghost predicate AtRest(st: System) {
    forall s, st' :: !Advances(st, st', s)
  }

  /** `st` belongs to the undisturbed run that began as `first`. */
  ghost predicate Course(first: System, st: System) {
    && Safe(st) && OnCourse(st) && first.run.Some?
    && st.run.value.workers.Keys == first.run.value.workers.Keys && st.returned == first.returned
  }

  lemma CourseStarts(before: System, first: System)
    requires Safe(before) && Begin(before, first)
    ensures Course(first, first) && first.returned == before.returned
  {
    BeginSafe(before, first);
    BeginOnCourse(before, first);
  }

  lemma CourseStep(first: System, st: System, st': System)
    requires Course(first, st) && Advance(st, st')
    ensures Course(first, st')
  {
    var s :| Advances(st, st', s);
    AdvanceOnCourse(st, st', s);
    WorkSafe(st, st', s);
  }

  lemma CourseEnds(first: System, st: System, after: System)
    requires Course(first, st) && AtRest(st) && End(st, after)
    ensures after.returned == first.returned + first.run.value.workers.Keys
    ensures forall s :: s in first.run.value.workers ==> s !in after.world.markers && Cleared(after, s)
  {
    forall s | s in st.run.value.workers ensures s in st.run.value.deleted {
      if st.run.value.workers[s] != Recorded { var st' := CanAdvance(st, s); }
    }
    EndSafe(st, after);
  }

  lemma {:induction false} CourseKept(trace: seq<System>, n: nat)
    requires n < |trace| && Course(trace[0], trace[0])
    requires forall i :: 0 <= i < |trace| - 1 ==> Advance(trace[i], trace[i + 1])
    ensures Course(trace[0], trace[n])
    decreases n
  {
    if n > 0 {
      CourseKept(trace, n - 1);
      assert Advance(trace[n - 1], trace[n - 1 + 1]);
      CourseStep(trace[0], trace[n - 1], trace[n]);
    }
  }

  /** From its beginning, a run in which every call succeeds can only come to rest with every worker
      done: then all stages it was given are gone with their tags and markers, and it reports them. */
  lemma UndisturbedRun(before: System, trace: seq<System>, after: System)
    requires Safe(before) && |trace| > 0 && Begin(before, trace[0])
    requires forall i :: 0 <= i < |trace| - 1 ==> Advance(trace[i], trace[i + 1])
    requires AtRest(trace[|trace| - 1]) && End(trace[|trace| - 1], after)
    ensures trace[0].run.Some? && after.returned == before.returned + trace[0].run.value.workers.Keys
    ensures forall s :: s in trace[0].run.value.workers ==> s !in after.world.markers && Cleared(after, s)
    ensures forall s :: s in trace[0].run.value.workers ==> s !in after.world.images
  {
    CourseStarts(before, trace[0]);
    CourseKept(trace, |trace| - 1);
    CourseEnds(trace[0], trace[|trace| - 1], after);
  }

  // ---- Nothing that can happen is left out of the behaviours.

  lemma AnyWorldStarts(w: World)
    ensures Init(System(w, None, w.metadata, w.markers, {}, {}))
  {
  }

  /** A run can begin over any stages whenever none is going on, given any tags that include every
      registered one, or miss some that cannot be read. */
  lemma RunCanBegin(st: System, stages: set<StageID>, linked: map<StageID, seq<Tag>>, unread: set<Tag>)
    requires st.run.None?
    requires forall t :: t in st.world.metadata && t !in unread ==>
               st.world.metadata[t] in linked && t in linked[st.world.metadata[t]]
    ensures var run := Run(linked, map s | s in stages :: DeletingImage, {}, false);
            Next(st, st.(run := Some(run), unread := st.unread + unread))
  {
    var run := Run(linked, map s | s in stages :: DeletingImage, {}, false);
    var st' := st.(run := Some(run), unread := st.unread + unread);
    assert Begin(st, st');
  }

  /** Every call of a worker can succeed or fail, with or without its effect, fatally or not. */
  lemma CallsCanFail(st: System, s: StageID, effect: World, next: Stage, fatal: bool)
    requires st.run.Some? && s in st.run.value.workers
    requires var run, w := st.run.value, st.world;
             match run.workers[s]
             case DeletingImage => effect == w.(images := w.images - {s}) && next == AfterTag(run, s, 0)
             case DeletingTag(i) =>
               i < |Linked(run, s)| && effect == w.(tags := w.tags - {Linked(run, s)[i]}) && next == UnregisteringTag(i)
             case UnregisteringTag(i) =>
               i < |Linked(run, s)| && effect == w.(metadata := w.metadata - {Linked(run, s)[i]}) && next == AfterTag(run, s, i + 1)
             case DeletingMarker => effect == w.(markers := w.markers - {s}) && next == Recording
             case _ => false
    ensures var run := st.run.value;
            var stopped := run.(workers := run.workers[s := Stopped], failed := run.failed || fatal);
            && Next(st, st.(world := effect, run := Some(run.(workers := run.workers[s := next]))))
            && Next(st, st.(world := effect, run := Some(stopped)))
            && Next(st, st.(run := Some(stopped)))
  {
    var run := st.run.value;
    var stopped := run.(workers := run.workers[s := Stopped], failed := run.failed || fatal);
    var done, broken, refused := st.(world := effect, run := Some(run.(workers := run.workers[s := next]))),
                                 st.(world := effect, run := Some(stopped)), st.(run := Some(stopped));
    assert Call(st, done, s, effect, next) && Call(st, broken, s, effect, next) && Call(st, refused, s, effect, next) by {
      assert Fails(st, broken, s, effect) && Fails(st, refused, s, st.world);
    }
    assert Work(st, done, s) && Work(st, broken, s) && Work(st, refused, s);
  }

  /** After a fatal failure any worker that is not done can be cancelled, and a run can end anywhere. */
  lemma RunCanEnd(st: System, s: StageID)
    requires st.run.Some?
    ensures st.run.value.failed && s in st.run.value.workers && st.run.value.workers[s] != Recorded ==>
              Next(st, st.(run := Some(st.run.value.(workers := st.run.value.workers[s := Stopped]))))
    ensures Next(st, st.(run := None, returned := st.returned + if st.run.value.failed then {} else st.run.value.deleted))
  {
    var run := st.run.value;
    if run.failed && s in run.workers && run.workers[s] != Recorded {
      assert Cancel(st, st.(run := Some(run.(workers := run.workers[s := Stopped]))), s);
    }
  }
}
