/** Any number of writers of cache files, interleaved one file-system call at a time, any call of
    which may fail and any writer of which may crash at any point (cache/envelope.go). */
module CacheRace {
  import opened Text
  import opened Cache

  /** Where a writer is. `tmp` is the temporary file it has created. A failed step leads to one
      attempt to remove that file; GaveUp(Some(tmp)) says the attempt failed too. */
  datatype Phase =
    | Ready
    | Created(tmp: string)
    | Written(tmp: string)
    | Closed(tmp: string)
    | Moded(tmp: string)
    | Cleaning(tmp: string)
    | Finished
    | GaveUp(left: Option<string>)
    | Crashed(orphan: Option<string>)

  datatype Writer<T> = Writer(path: string, env: Envelope<T>, phase: Phase)

  datatype State<T> = State(files: Files<T>, writers: seq<Writer<T>>)

  /** The temporary file of a writer that is still there. */
  function Temp(phase: Phase): Option<string> {
    match phase
    case Created(tmp) => Some(tmp)
    case Written(tmp) => Some(tmp)
    case Closed(tmp) => Some(tmp)
    case Moded(tmp) => Some(tmp)
    case Cleaning(tmp) => Some(tmp)
    case GaveUp(left) => left
    case Crashed(orphan) => orphan
    case _ => None
  }

  predicate Over(phase: Phase) {
    phase.Finished? || phase.GaveUp? || phase.Crashed?
  }

  /** One file-system call of one writer, or its crash. */
  ghost predicate WriterStep<T>(a: Files<T>, x: Writer<T>, b: Files<T>, y: Writer<T>) {
    && !Over(x.phase)
    && y == x.(phase := y.phase)
    && ( || (b == a && y.phase == Crashed(Temp(x.phase)))
         || match x.phase
            case Ready =>
              // directory, encoding or creation failed, or a new temporary file exists, still empty
              || (b == a && y.phase == GaveUp(None))
              || (y.phase.Created? && IsTemp(y.phase.tmp) && y.phase.tmp !in a && b == a[y.phase.tmp := Partial])
            case Created(tmp) =>
              || (b == a[tmp := Complete(x.env)] && y.phase == Written(tmp))
              || (b == a[tmp := Partial] && y.phase in {Cleaning(tmp), Crashed(Some(tmp))})
            case Written(tmp) => b == a && y.phase in {Closed(tmp), Cleaning(tmp)}
            case Closed(tmp) => b == a && y.phase in {Moded(tmp), Cleaning(tmp)}
            case Moded(tmp) =>
              || (tmp in a && b == a[x.path := a[tmp]] - {tmp} && y.phase == Finished)
              || (b == a && y.phase == Cleaning(tmp))
            case Cleaning(tmp) =>
              || (b == a - {tmp} && y.phase == GaveUp(None))
              || (b == a && y.phase == GaveUp(Some(tmp)))
            case _ => false )
  }

  ghost predicate Next<T>(s: State<T>, w: nat, t: State<T>) {
    && w < |s.writers| == |t.writers|
    && t.writers == s.writers[w := t.writers[w]]
    && WriterStep(s.files, s.writers[w], t.files, t.writers[w])
  }

  /** Writers target resource files; the initial files are arbitrary. */
  ghost predicate Init<T>(s: State<T>) {
    forall w :: 0 <= w < |s.writers| ==> s.writers[w].phase == Ready && IsResource(s.writers[w].path)
  }

  ghost predicate Run<T>(states: seq<State<T>>, schedule: seq<nat>) {
    && |states| == |schedule| + 1
    && Init(states[0])
    && forall i :: 0 <= i < |schedule| ==> Next(states[i], schedule[i], states[i + 1])
  }

  lemma ExtendRun<T>(states: seq<State<T>>, schedule: seq<nat>, w: nat, t: State<T>)
    requires Run(states, schedule) && Next(states[|schedule|], w, t)
    ensures Run(states + [t], schedule + [w])
  {
    hide Next, Init;
  }

  /** The state after one writer moved on to another phase. */
  function Moved<T>(s: State<T>, w: nat, files: Files<T>, phase: Phase): State<T>
    requires w < |s.writers|
  {
    State(files, s.writers[w := s.writers[w].(phase := phase)])
  }

  /** Prolongs a run by one step. */
  lemma Play<T>(states: seq<State<T>>, schedule: seq<nat>, w: nat, files: Files<T>, phase: Phase)
    returns (states': seq<State<T>>, schedule': seq<nat>)
    requires |states| == |schedule| + 1 && Run(states, schedule) && w < |states[|schedule|].writers|
    requires var s := states[|schedule|];
      WriterStep(s.files, s.writers[w], files, s.writers[w].(phase := phase))
    ensures |states'| == |schedule'| + 1 && Run(states', schedule') && states'[0] == states[0]
    ensures states'[|schedule'|] == Moved(states[|schedule|], w, files, phase)
  {
    hide WriterStep, Run;
    var t := Moved(states[|schedule|], w, files, phase);
    ExtendRun(states, schedule, w, t);
    states', schedule' := states + [t], schedule + [w];
  }

  // ---------- what every step keeps ----------

  ghost predicate WellFormed<T>(files: Files<T>, writer: Writer<T>) {
    && IsResource(writer.path)
    && (Temp(writer.phase).Some? ==> IsTemp(Temp(writer.phase).value) && Temp(writer.phase).value in files)
    && (writer.phase.Written? || writer.phase.Closed? || writer.phase.Moded? ==>
          files[Temp(writer.phase).value] == Complete(writer.env))
  }

  ghost predicate Left<T>(writers: seq<Writer<T>>, path: string) {
    exists w :: 0 <= w < |writers| && Temp(writers[w].phase) == Some(path)
  }

  /** Each temporary file has one owner, and every new file other than a resource is the
      temporary file of some writer. */
  ghost predicate Inv<T>(initial: Files<T>, s: State<T>) {
    && (forall w :: 0 <= w < |s.writers| ==> WellFormed(s.files, s.writers[w]))
    && (forall v, w :: 0 <= v < |s.writers| && 0 <= w < |s.writers| && v != w && Temp(s.writers[v].phase).Some? ==>
          Temp(s.writers[v].phase) != Temp(s.writers[w].phase))
    && (forall f :: f in s.files && f !in initial && !IsResource(f) ==> Left(s.writers, f))
    && (forall f :: f in initial && !IsResource(f) ==> f in s.files && s.files[f] == initial[f])
    && (forall w :: 0 <= w < |s.writers| && Temp(s.writers[w].phase).Some? ==>
          Temp(s.writers[w].phase).value !in initial)
  }

  lemma NotBoth(path: string)
    ensures !(IsTemp(path) && IsResource(path))
  {
    Endings(path);
  }

  /** A step changes no file but the writer's own temporary one and, on rename, its target. */
  lemma StepTouches<T>(a: Files<T>, x: Writer<T>, b: Files<T>, y: Writer<T>, f: string)
    requires WellFormed(a, x) && WriterStep(a, x, b, y)
    requires Some(f) != Temp(x.phase) && Some(f) != Temp(y.phase)
    requires f == x.path ==> !y.phase.Finished?
    ensures f in a <==> f in b
    ensures f in a ==> a[f] == b[f]
  {}

  lemma StepWellFormed<T>(a: Files<T>, x: Writer<T>, b: Files<T>, y: Writer<T>)
    requires WellFormed(a, x) && WriterStep(a, x, b, y)
    ensures WellFormed(b, y)
    ensures IsResource(x.path)
    ensures Temp(x.phase).Some? ==>
      Temp(y.phase) == Temp(x.phase) || (Temp(y.phase) == None && Temp(x.phase).value !in b)
    ensures Temp(x.phase) == None && Temp(y.phase).Some? ==> Temp(y.phase).value !in a
  {}

  /** A rename puts the complete envelope at the target, in one step. */
  lemma RenameIsComplete<T>(a: Files<T>, x: Writer<T>, b: Files<T>, y: Writer<T>)
    requires WellFormed(a, x) && WriterStep(a, x, b, y) && y.phase.Finished?
    ensures x.path in b && b[x.path] == Complete(x.env)
  {
    NotBoth(x.path);
  }

  /** A step of one writer leaves the temporary file of another alone. */
  lemma OtherUnharmed<T>(initial: Files<T>, s: State<T>, w: nat, t: State<T>, v: nat)
    requires Inv(initial, s) && Next(s, w, t) && v < |s.writers| && v != w
    ensures t.writers[v] == s.writers[v] && WellFormed(t.files, t.writers[v])
    ensures Temp(t.writers[v].phase).Some? ==> Temp(t.writers[v].phase) != Temp(t.writers[w].phase)
  {
    var x, y, other := s.writers[w], t.writers[w], s.writers[v];
    assert WellFormed(s.files, x) && WellFormed(s.files, other);
    StepWellFormed(s.files, x, t.files, y);
    hide WriterStep, Temp, IsTemp, IsResource;
    if Temp(other.phase).Some? {
      var f := Temp(other.phase).value;
      NotBoth(f);
      StepTouches(s.files, x, t.files, y, f);
    }
  }

  /** The files that were there initially and are no resources stay. */
  lemma InitialStays<T>(initial: Files<T>, s: State<T>, w: nat, t: State<T>, f: string)
    requires Inv(initial, s) && Next(s, w, t) && f in initial && !IsResource(f)
    ensures f in t.files && t.files[f] == initial[f] && Temp(t.writers[w].phase) != Some(f)
  {
    hide WriterStep, IsTemp;
    var x, y := s.writers[w], t.writers[w];
    assert WellFormed(s.files, x);
    StepWellFormed(s.files, x, t.files, y);
    StepTouches(s.files, x, t.files, y, f);
  }

  lemma NewIsLeft<T>(initial: Files<T>, s: State<T>, w: nat, t: State<T>, f: string)
    requires Inv(initial, s) && Next(s, w, t) && f in t.files && f !in initial && !IsResource(f)
    ensures Left(t.writers, f)
  {
    hide WriterStep, WellFormed, Temp, IsTemp, IsResource;
    var x, y := s.writers[w], t.writers[w];
    assert WellFormed(s.files, x);
    StepWellFormed(s.files, x, t.files, y);
    if Temp(y.phase) == Some(f) {
      assert Temp(t.writers[w].phase) == Some(f);
    } else if Temp(x.phase) != Some(f) {
      StepTouches(s.files, x, t.files, y, f);
      assert Left(s.writers, f);
      var v :| 0 <= v < |s.writers| && Temp(s.writers[v].phase) == Some(f);
      assert t.writers[v] == s.writers[v];
    }
  }

  lemma StepKeepsInv<T>(initial: Files<T>, s: State<T>, w: nat, t: State<T>)
    requires Inv(initial, s) && Next(s, w, t)
    ensures Inv(initial, t)
  {
    hide WriterStep, IsTemp, IsResource, Left;
    StepWellFormed(s.files, s.writers[w], t.files, t.writers[w]);
    forall v | 0 <= v < |s.writers| && v != w
      ensures t.writers[v] == s.writers[v] && WellFormed(t.files, t.writers[v])
      ensures Temp(t.writers[v].phase).Some? ==> Temp(t.writers[v].phase) != Temp(t.writers[w].phase)
    {
      OtherUnharmed(initial, s, w, t, v);
    }
    forall f | f in initial && !IsResource(f)
      ensures f in t.files && t.files[f] == initial[f] && Temp(t.writers[w].phase) != Some(f)
    {
      InitialStays(initial, s, w, t, f);
    }
    forall f | f in t.files && f !in initial && !IsResource(f) ensures Left(t.writers, f) {
      NewIsLeft(initial, s, w, t, f);
    }
    if Temp(t.writers[w].phase).Some? { NotBoth(Temp(t.writers[w].phase).value); }
  }

  lemma {:induction false} RunKeepsInv<T>(states: seq<State<T>>, schedule: seq<nat>, n: nat)
    requires Run(states, schedule) && n < |states|
    ensures Inv(states[0].files, states[n])
  {
    hide Inv, WriterStep;
    if n == 0 {
      StartInv(states[0]);
    } else {
      RunKeepsInv(states, schedule, n - 1);
      assert Next(states[n - 1], schedule[n - 1], states[n]);
      StepKeepsInv(states[0].files, states[n - 1], schedule[n - 1], states[n]);
    }
  }

  lemma StartInv<T>(s: State<T>)
    requires Init(s)
    ensures Inv(s.files, s)
  {}

  // ---------- what readers see ----------

  /** Step i of the run renames a temporary file onto the path. */
  ghost predicate Renames<T>(states: seq<State<T>>, schedule: seq<nat>, i: nat, path: string)
    requires |states| == |schedule| + 1 && i < |schedule|
  {
    && schedule[i] < |states[i].writers| && schedule[i] < |states[i + 1].writers|
    && states[i].writers[schedule[i]].path == path
    && !states[i].writers[schedule[i]].phase.Finished?
    && states[i + 1].writers[schedule[i]].phase.Finished?
  }

  /** The last of the first n steps that renamed onto the path. */
  ghost function LastRename<T>(states: seq<State<T>>, schedule: seq<nat>, n: nat, path: string): (r: Option<nat>)
    requires |states| == |schedule| + 1 && n <= |schedule|
    ensures r.Some? ==> r.value < n && Renames(states, schedule, r.value, path)
    ensures forall i: nat :: i < n && Renames(states, schedule, i, path) ==> r.Some? && i <= r.value
  {
    if n == 0 then None
    else if Renames(states, schedule, n - 1, path) then Some(n - 1)
    else LastRename(states, schedule, n - 1, path)
  }

  /** Never a partial file: under every interleaving, with any call failing and any writer crashing
      anywhere, a resource path holds the complete envelope of the writer that renamed onto it
      last, or, if none has, exactly what it held initially. */
  lemma {:induction false} ResourceIsLastRename<T>(states: seq<State<T>>, schedule: seq<nat>, n: nat, path: string)
    requires Run(states, schedule) && n < |states| && IsResource(path)
    ensures match LastRename(states, schedule, n, path)
      case None =>
        && (path in states[n].files <==> path in states[0].files)
        && (path in states[0].files ==> states[n].files[path] == states[0].files[path])
      case Some(i) =>
        && path in states[n].files
        && states[n].files[path] == Complete(states[i].writers[schedule[i]].env)
  {
    hide WriterStep, Inv, IsResource;
    if n > 0 {
      ResourceIsLastRename(states, schedule, n - 1, path);
      RunKeepsInv(states, schedule, n - 1);
      var w := schedule[n - 1];
      assert Next(states[n - 1], w, states[n]);
      OneStepOnPath(states[0].files, states[n - 1], w, states[n], path);
    }
  }

  lemma OneStepOnPath<T>(initial: Files<T>, s: State<T>, w: nat, t: State<T>, path: string)
    requires Inv(initial, s) && Next(s, w, t) && IsResource(path)
    ensures !s.writers[w].phase.Finished?
    ensures if s.writers[w].path == path && t.writers[w].phase.Finished?
      then path in t.files && t.files[path] == Complete(s.writers[w].env)
      else (path in t.files <==> path in s.files) && (path in s.files ==> t.files[path] == s.files[path])
  {
    var x, y := s.writers[w], t.writers[w];
    assert WellFormed(s.files, x);
    StepWellFormed(s.files, x, t.files, y);
    NotBoth(path);
    if x.path == path && y.phase.Finished? {
      RenameIsComplete(s.files, x, t.files, y);
    } else {
      StepTouches(s.files, x, t.files, y, path);
    }
  }

  /** A reader at any moment: a file that was absent or complete never reads as malformed, and a
      hit is the initial envelope or one that some writer was given. */
  lemma ReadersSeeWholeEnvelopes<T>(states: seq<State<T>>, schedule: seq<nat>, n: nat, loc: Locator, name: string)
    requires Run(states, schedule) && n < |states|
    requires var path := loc.FileOf(name);
      path !in states[0].files || states[0].files[path] != Partial
    ensures Read(states[n].files, loc, name) != BadFile
    ensures Read(states[n].files, loc, name).Hit? ==>
      || Read(states[n].files, loc, name) == Read(states[0].files, loc, name)
      || exists i: nat, w: nat :: i < n && w < |states[i].writers|
           && states[i].writers[w].path == loc.FileOf(name)
           && states[i].writers[w].env == Read(states[n].files, loc, name).env
  {
    hide WriterStep;
    var path := loc.FileOf(name);
    TempIsNoResource(loc, name, "");
    hide IsResource, Locator.FileOf;
    ResourceIsLastRename(states, schedule, n, path);
    match LastRename(states, schedule, n, path)
    case None => ReadIgnoresOthers(states[n].files, states[0].files, loc, name);
    case Some(i) => assert i < n && schedule[i] < |states[i].writers|;
  }

  // ---------- what is left behind ----------

  ghost predicate CleanlyOver(phase: Phase) {
    Over(phase) && Temp(phase) == None
  }

  /** Every error path cleans up: once all writers are over, none having crashed with a temporary
      file or failed to remove one, the only new files are resource files. */
  lemma NothingLeftBehind<T>(states: seq<State<T>>, schedule: seq<nat>, n: nat, f: string)
    requires Run(states, schedule) && n < |states|
    requires forall w :: 0 <= w < |states[n].writers| ==> CleanlyOver(states[n].writers[w].phase)
    requires f in states[n].files && f !in states[0].files
    ensures IsResource(f)
  {
    RunKeepsInv(states, schedule, n);
  }

  ghost predicate OnlyOwner<T>(writers: seq<Writer<T>>, w: int, f: string) {
    && 0 <= w < |writers| && Temp(writers[w].phase) == Some(f)
    && forall v :: 0 <= v < |writers| && v != w ==> Temp(writers[v].phase) != Some(f)
  }

  /** In any reachable state, a new file that is no resource is the temporary file of exactly one
      writer: one still at work, one that crashed, or one whose removal failed. */
  lemma EveryOrphanHasOwner<T>(states: seq<State<T>>, schedule: seq<nat>, n: nat, f: string)
    requires Run(states, schedule) && n < |states|
    requires f in states[n].files && f !in states[0].files && !IsResource(f)
    ensures exists w :: OnlyOwner(states[n].writers, w, f)
  {
    RunKeepsInv(states, schedule, n);
    assert Left(states[n].writers, f);
    var w :| 0 <= w < |states[n].writers| && Temp(states[n].writers[w].phase) == Some(f);
    assert OnlyOwner(states[n].writers, w, f);
  }

  /** The writer ended without its temporary file being removed. */
  ghost predicate Abandoned<T>(writer: Writer<T>, f: string) {
    writer.phase == GaveUp(Some(f)) || writer.phase == Crashed(Some(f))
  }

  /** What is left when everybody is done: a new non-resource file is there exactly if some writer
      crashed with it or gave up because its removal failed. */
  lemma OrphansExactly<T>(states: seq<State<T>>, schedule: seq<nat>, n: nat, f: string)
    requires Run(states, schedule) && n < |states|
    requires forall w :: 0 <= w < |states[n].writers| ==> Over(states[n].writers[w].phase)
    requires f !in states[0].files && !IsResource(f)
    ensures f in states[n].files <==> exists w :: 0 <= w < |states[n].writers| && Abandoned(states[n].writers[w], f)
  {
    hide IsTemp, IsResource;
    RunKeepsInv(states, schedule, n);
    if f in states[n].files {
      assert Left(states[n].writers, f);
      var w :| 0 <= w < |states[n].writers| && Temp(states[n].writers[w].phase) == Some(f);
      assert Over(states[n].writers[w].phase);
    } else if w :| 0 <= w < |states[n].writers| && Abandoned(states[n].writers[w], f) {
      LeftIsThere(states[0].files, states[n], w);
    }
  }

  /** An orphan stays: once a writer is over, the temporary file it left is there in every later
      state, whatever is written after it. */
  lemma {:induction false} OrphanStays<T>(states: seq<State<T>>, schedule: seq<nat>, crash: nat, n: nat, w: nat,
      f: string)
    requires Run(states, schedule) && crash <= n < |states| && w < |states[crash].writers|
    requires Over(states[crash].writers[w].phase) && Temp(states[crash].writers[w].phase) == Some(f)
    ensures w < |states[n].writers| && states[n].writers[w] == states[crash].writers[w]
    ensures f in states[n].files
    decreases n
  {
    hide Inv, Temp;
    RunKeepsInv(states, schedule, n);
    if crash < n {
      OrphanStays(states, schedule, crash, n - 1, w, f);
      assert Next(states[n - 1], schedule[n - 1], states[n]);
    }
    LeftIsThere(states[0].files, states[n], w);
  }

  lemma LeftIsThere<T>(initial: Files<T>, s: State<T>, w: nat)
    requires Inv(initial, s) && w < |s.writers| && Temp(s.writers[w].phase).Some?
    ensures Temp(s.writers[w].phase).value in s.files
  {}

  lemma TempsDiffer(loc: Locator, name: string, random: string, random': string)
    requires |random| == |random'| && random != random'
    ensures loc.TempOf(name, random) != loc.TempOf(name, random')
  {
    var n := |loc.Directory()| + 1 + |name| + 1;
    assert loc.TempOf(name, random)[n..][..|random|] == random;
    assert loc.TempOf(name, random')[n..][..|random|] == random';
  }

  /** The next successful write does not supersede an orphan: for every resource there is a run in
      which one writer crashes after creating its temporary file, a second writer then renames its
      own onto the same path, and the orphan is still there beside the new resource file. */
  lemma OrphanOutlivesNextWrite<T>(loc: Locator, name: string, env: Envelope<T>)
    returns (states: seq<State<T>>, schedule: seq<nat>)
    ensures Run(states, schedule) && states[0].files == map[]
    ensures var s := states[|schedule|];
      && |s.writers| == 2
      && s.writers[0] == Writer(loc.FileOf(name), env, Crashed(Some(loc.TempOf(name, "1"))))
      && s.writers[1] == Writer(loc.FileOf(name), env, Finished)
      && s.files == map[loc.FileOf(name) := Complete(env), loc.TempOf(name, "1") := Partial]
  {
    hide Locator.FileOf, Locator.TempOf, Run, IsTemp, IsResource;
    var path, orphan, tmp := loc.FileOf(name), loc.TempOf(name, "1"), loc.TempOf(name, "2");
    TempIsNoResource(loc, name, "1");
    TempIsNoResource(loc, name, "2");
    assert "1"[0] != "2"[0];
    TempsDiffer(loc, name, "1", "2");
    var start := State(map[], [Writer(path, env, Ready), Writer(path, env, Ready)]);
    StartRun(start);
    states, schedule := [start], [];
    var files := map[orphan := Partial];
    states, schedule := Play(states, schedule, 0, files, Created(orphan));
    states, schedule := Play(states, schedule, 0, files, Crashed(Some(orphan)));
    states, schedule := Play(states, schedule, 1, files[tmp := Partial], Created(tmp));
    var whole := files[tmp := Complete(env)];
    states, schedule := Play(states, schedule, 1, whole, Written(tmp));
    states, schedule := Play(states, schedule, 1, whole, Closed(tmp));
    states, schedule := Play(states, schedule, 1, whole, Moded(tmp));
    states, schedule := Play(states, schedule, 1, whole[path := Complete(env)] - {tmp}, Finished);
  }

  lemma StartRun<T>(s: State<T>)
    requires Init(s)
    ensures Run([s], [])
  {}
}
