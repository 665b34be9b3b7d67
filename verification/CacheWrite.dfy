/** One write of a cache file, call by call (cache/envelope.go): what it leaves behind when any call
    fails, how it is one writer of CacheRace, and what writes to other resources leave alone. */
module CacheWrite {
  import opened Text
  import opened Cache
  import opened CacheRace

  datatype Stage = MakeDirectory | Encode | CreateFile | WriteFile | CloseFile | SetMode | MoveFile

  datatype WriteError = InstanceMismatch | PathRefused(error: PathError) | Failed(stage: Stage)

  /** Nothing changed but that one new temporary file was left behind. */
  ghost predicate OneOrphan<T>(a: Files<T>, b: Files<T>, tmp: string) {
    tmp !in a && tmp in b && b - {tmp} == a
  }

  ghost predicate SomeFails(fails: nat -> bool, start: nat, end: nat) {
    exists i: nat :: start <= i < end && fails(i)
  }

  /** The last call failed, and one before it. */
  ghost predicate TwoFail(fails: nat -> bool, start: nat, end: nat) {
    start < end && fails(end - 1) && SomeFails(fails, start, end - 1)
  }

  /** What the calls numbered from `start` to `end` did to put an envelope in place: they fail iff
      one of them failed. A failure changes nothing, except that the temporary file is left if the
      last call, the one that was to remove it, failed as well. */
  ghost predicate Replaced<T>(fails: nat -> bool, start: nat, end: nat, a: Files<T>, b: Files<T>,
      tmp: string, path: string, env: Envelope<T>, err: Option<WriteError>)
  {
    && start <= end
    && (err.None? <==> !SomeFails(fails, start, end))
    && match err
       case None => b == a[path := Complete(env)]
       case Some(Failed(_)) => b == a || (OneOrphan(a, b, tmp) && TwoFail(fails, start, end))
       case Some(_) => false
  }

  /** Everything a write under a valid path may do; a temporary name that is taken is an error. */
  ghost predicate AtomicOutcome<T>(fails: nat -> bool, start: nat, end: nat, a: Files<T>, b: Files<T>,
      tmp: string, path: string, env: Envelope<T>, err: Option<WriteError>)
  {
    if tmp in a then start <= end && err.Some? && err.value.Failed? && b == a
    else Replaced(fails, start, end, a, b, tmp, path, env, err)
  }

  lemma FailedEarly<T>(fails: nat -> bool, start: nat, end: nat, a: Files<T>,
      tmp: string, path: string, env: Envelope<T>, stage: Stage)
    requires start < end && (fails(end - 1) || tmp in a)
    ensures AtomicOutcome(fails, start, end, a, a, tmp, path, env, Some(Failed(stage)))
  {}

  /** A call failed, and then the removal of the temporary file was tried. */
  lemma FailedLate<T>(fails: nat -> bool, start: nat, end: nat, a: Files<T>, b: Files<T>,
      tmp: string, path: string, env: Envelope<T>, stage: Stage)
    requires start + 2 <= end && fails(end - 2)
    requires if fails(end - 1) then OneOrphan(a, b, tmp) else b == a
    ensures Replaced(fails, start, end, a, b, tmp, path, env, Some(Failed(stage)))
  {
    hide OneOrphan;
    assert SomeFails(fails, start, end) && (fails(end - 1) ==> SomeFails(fails, start, end - 1));
  }

  lemma NoneFailed<T>(fails: nat -> bool, start: nat, a: Files<T>, tmp: string, path: string, env: Envelope<T>)
    requires !fails(start) && !fails(start + 1) && !fails(start + 2)
    ensures Replaced(fails, start, start + 3, a, a[path := Complete(env)], tmp, path, env, None)
  {}

  /** Calls that went well before. */
  lemma AfterGoodCalls<T>(fails: nat -> bool, start: nat, middle: nat, end: nat, a: Files<T>, b: Files<T>,
      tmp: string, path: string, env: Envelope<T>, err: Option<WriteError>)
    requires start <= middle && !SomeFails(fails, start, middle)
    requires Replaced(fails, middle, end, a, b, tmp, path, env, err)
    ensures Replaced(fails, start, end, a, b, tmp, path, env, err)
  {
    if SomeFails(fails, start, end) {
      var i: nat :| start <= i < end && fails(i);
      assert middle <= i < end;
    }
  }

  lemma CreatedFirst<T>(fails: nat -> bool, start: nat, end: nat, a: Files<T>, b: Files<T>,
      tmp: string, path: string, env: Envelope<T>, err: Option<WriteError>)
    requires !fails(start) && !fails(start + 1) && !fails(start + 2)
    requires tmp !in a && Replaced(fails, start + 3, end, a, b, tmp, path, env, err)
    ensures AtomicOutcome(fails, start, end, a, b, tmp, path, env, err)
  {
    hide Replaced;
    AfterGoodCalls(fails, start, start + 3, end, a, b, tmp, path, env, err);
  }

  /** The calls a write makes before the one of this stage. */
  function CallsBefore(stage: Stage): nat {
    match stage
    case MakeDirectory => 0
    case Encode => 1
    case CreateFile => 2
    case WriteFile => 3
    case CloseFile => 4
    case SetMode => 5
    case MoveFile => 6
  }

  /** The calls from `start` on are those of a write that has made `done` calls, and the error names
      the first that failed: seven calls in order, none after a failed one but, where there is a
      temporary file, the call that removes it. `taken` says that the temporary name was in use. */
  ghost predicate StopsAtFirst(fails: nat -> bool, start: nat, end: nat, done: nat, taken: bool,
      err: Option<WriteError>)
  {
    match err
    case None => end + done == start + 7 && !SomeFails(fails, start, end)
    case Some(Failed(stage)) =>
      && done <= CallsBefore(stage)
      && var n := start + CallsBefore(stage) - done;
         && !SomeFails(fails, start, n) && (fails(n) || (stage == CreateFile && taken))
         && end == n + if CallsBefore(stage) >= CallsBefore(WriteFile) then 2 else 1
    case Some(_) => false
  }

  lemma StoppedHere(fails: nat -> bool, start: nat, done: nat, stage: Stage, taken: bool)
    requires done == CallsBefore(stage) && (fails(start) || (stage == CreateFile && taken))
    ensures var end := start + if CallsBefore(stage) >= 3 then 2 else 1;
      StopsAtFirst(fails, start, end, done, taken, Some(Failed(stage)))
  {}

  lemma AllWent(fails: nat -> bool, start: nat)
    requires !fails(start) && !fails(start + 1) && !fails(start + 2)
    ensures StopsAtFirst(fails, start, start + 3, 4, false, None)
  {}

  lemma WentOn(fails: nat -> bool, start: nat, end: nat, done: nat, taken: bool, err: Option<WriteError>)
    requires !fails(start) && done < 7 && StopsAtFirst(fails, start + 1, end, done + 1, taken, err)
    ensures StopsAtFirst(fails, start, end, done, taken, err)
  {}

  /** Everything a write may do: a mismatched instance or a bad path is refused without a call. */
  ghost predicate WriteOutcome<T>(fails: nat -> bool, start: nat, end: nat, a: Files<T>, b: Files<T>,
      loc: Locator, env: Envelope<T>, random: string, err: Option<WriteError>)
  {
    if env.inst != loc.instanceKey then err == Some(InstanceMismatch) && b == a && start == end
    else if loc.ResourceFile(env.resource).Refused? then
      err == Some(PathRefused(loc.ResourceFile(env.resource).error)) && b == a && start == end
    else AtomicOutcome(fails, start, end, a, b, loc.TempOf(env.resource, random), loc.FileOf(env.resource), env, err)
  }

  /** A write that fails cleans up after itself: if no second call fails, every file is as before.
      A write under a valid path and a fresh temporary name fails only if some call failed. */
  lemma FailureIsCleanedUp<T>(fails: nat -> bool, start: nat, end: nat, a: Files<T>, b: Files<T>,
      loc: Locator, env: Envelope<T>, random: string, err: Option<WriteError>)
    requires WriteOutcome(fails, start, end, a, b, loc, env, random, err)
    ensures err.Some? && (forall i, j: nat :: start <= i < j < end ==> !(fails(i) && fails(j))) ==> b == a
    ensures var valid := env.inst == loc.instanceKey && loc.ResourceFile(env.resource).Path?;
      valid && loc.TempOf(env.resource, random) !in a ==>
        (err.None? <==> forall i: nat :: start <= i < end ==> !fails(i))
  {
    hide ValidComponent, Locator.TempOf, Locator.FileOf, OneOrphan;
    if TwoFail(fails, start, end) {
      var i: nat :| start <= i < end - 1 && fails(i);
      assert fails(i) && fails(end - 1);
    }
  }

  // ---------- a write as one writer of CacheRace ----------

  datatype Trace<T> = Trace(states: seq<State<T>>, schedule: seq<nat>)

  /** A run of CacheRace with one writer, from the start of its write over files `a` to a moment at
      which the files are `b` and the writer is in the given phase. */
  ghost predicate Alone<T>(run: Trace<T>, a: Files<T>, b: Files<T>, path: string, env: Envelope<T>, phase: Phase) {
    && |run.states| == |run.schedule| + 1 && Run(run.states, run.schedule)
    && run.states[0] == State(a, [Writer(path, env, Ready)])
    && run.states[|run.schedule|] == State(b, [Writer(path, env, phase)])
  }

  /** The phase in which a write ends: only a temporary file still there was left. */
  function EndPhase<T(==)>(a: Files<T>, b: Files<T>, tmp: string, err: Option<WriteError>): Phase {
    if err.None? then Finished else GaveUp(if b == a then None else Some(tmp))
  }

  lemma EndsFinished<T>(a: Files<T>, b: Files<T>, tmp: string)
    ensures EndPhase(a, b, tmp, None) == Finished
  {}

  lemma Begin<T>(files: Files<T>, path: string, env: Envelope<T>) returns (run: Trace<T>)
    requires IsResource(path)
    ensures Alone(run, files, files, path, env, Ready)
  {
    run := Trace([State(files, [Writer(path, env, Ready)])], []);
    StartRun(run.states[0]);
  }

  lemma Go<T>(run: Trace<T>, a: Files<T>, b: Files<T>, path: string, env: Envelope<T>, phase: Phase,
              c: Files<T>, phase': Phase) returns (run': Trace<T>)
    requires Alone(run, a, b, path, env, phase)
    requires WriterStep(b, Writer(path, env, phase), c, Writer(path, env, phase'))
    ensures Alone(run', a, c, path, env, phase')
  {
    hide Run, WriterStep;
    var states, schedule := Play(run.states, run.schedule, 0, c, phase');
    run' := Trace(states, schedule);
  }

  /** The writer owns its temporary file and has not renamed it; a write cut short left it partial. */
  ghost predicate AtWork<T>(phase: Phase, tmp: string, files: Files<T>) {
    || (phase == Created(tmp) && tmp in files && files[tmp] == Partial)
    || phase == Written(tmp) || phase == Closed(tmp) || phase == Moded(tmp)
  }

  /** A failed step and the attempt to remove the temporary file after it. */
  lemma CleanUp<T>(run: Trace<T>, a: Files<T>, b: Files<T>, path: string, env: Envelope<T>, phase: Phase,
                   tmp: string, c: Files<T>) returns (run': Trace<T>)
    requires Alone(run, a, b, path, env, phase) && AtWork(phase, tmp, b)
    requires c == b - {tmp} || c == b
    ensures Alone(run', a, c, path, env, GaveUp(if c == b - {tmp} then None else Some(tmp)))
  {
    hide Alone;
    run' := Go(run, a, b, path, env, phase, b, Cleaning(tmp));
    run' := Go(run', a, b, path, env, Cleaning(tmp), c, GaveUp(if c == b - {tmp} then None else Some(tmp)));
  }

  /** The steps of a write that goes well. */
  lemma GoodSteps<T>(before: Files<T>, tmp: string, path: string, env: Envelope<T>)
    requires tmp !in before && tmp != path
    ensures var whole := before[tmp := Complete(env)];
      && WriterStep(before[tmp := Partial], Writer(path, env, Created(tmp)), whole, Writer(path, env, Written(tmp)))
      && WriterStep(whole, Writer(path, env, Written(tmp)), whole, Writer(path, env, Closed(tmp)))
      && WriterStep(whole, Writer(path, env, Closed(tmp)), whole, Writer(path, env, Moded(tmp)))
      && WriterStep(whole, Writer(path, env, Moded(tmp)), before[path := Complete(env)], Writer(path, env, Finished))
  {
    var whole := before[tmp := Complete(env)];
    assert whole[path := whole[tmp]] - {tmp} == before[path := Complete(env)];
    assert before[tmp := Partial][tmp := Complete(env)] == whole;
  }

  /** A writer that gave up before it had a file, and one that has just created it. */
  lemma FirstSteps<T>(before: Files<T>, tmp: string, path: string, env: Envelope<T>)
    returns (givenUp: Trace<T>, created: Trace<T>)
    requires IsTemp(tmp) && IsResource(path)
    ensures Alone(givenUp, before, before, path, env, GaveUp(None))
    ensures tmp !in before ==> Alone(created, before, before[tmp := Partial], path, env, Created(tmp))
  {
    hide Alone, IsTemp, IsResource;
    created := Begin(before, path, env);
    givenUp := Go(created, before, before, path, env, Ready, before, GaveUp(None));
    if tmp !in before {
      created := Go(created, before, before, path, env, Ready, before[tmp := Partial], Created(tmp));
    }
  }

  /** A failed write is not seen by any reader. */
  lemma FailureUnread<T>(a: Files<T>, b: Files<T>, loc: Locator, name: string, random: string, loc': Locator,
      name': string)
    requires b == a || OneOrphan(a, b, loc.TempOf(name, random))
    ensures Read(b, loc', name') == Read(a, loc', name')
  {
    var tmp, path := loc.TempOf(name, random), loc'.FileOf(name');
    TempIsNoResource(loc, name, random);
    TempIsNoResource(loc', name', random);
    hide Locator.FileOf, Locator.TempOf, IsTemp, IsResource;
    if b != a {
      assert path in a <==> path in b - {tmp};
      assert path in a ==> a[path] == (b - {tmp})[path];
    }
    ReadIgnoresOthers(b, a, loc', name');
  }

  /** The write succeeded and was of this resource. */
  predicate Stored(loc: Locator, name: string, written: Locator, resource: string, err: Option<WriteError>) {
    err.None? && written.instanceKey == loc.instanceKey && resource == name
  }

  /** A write under the same root that fails, or that is of another instance or resource, leaves
      what a reader of this resource sees as it was. */
  lemma WriteElsewhere<T>(fails: nat -> bool, start: nat, end: nat, a: Files<T>, b: Files<T>,
      written: Locator, env: Envelope<T>, random: string, err: Option<WriteError>, loc: Locator, name: string)
    requires WriteOutcome(fails, start, end, a, b, written, env, random, err)
    requires written.root == loc.root && !Stored(loc, name, written, env.resource, err)
    ensures Read(b, loc, name) == Read(a, loc, name)
  {
    hide OneOrphan, Locator.FileOf, Locator.TempOf, ValidComponent, SomeFails, TwoFail;
    if err.None? && loc.ResourceFile(name).Path? {
      if written.FileOf(env.resource) == loc.FileOf(name) {
        PathsInjective(written, loc, env.resource, name);
      }
      ReadIgnoresOthers(b, a, loc, name);
    } else if err.Some? && b != a {
      FailureUnread(a, b, written, env.resource, random, loc, name);
    }
  }

  // ---------- a sequence of writes ----------

  datatype Attempt<T> = Attempt(loc: Locator, env: Envelope<T>, random: string, err: Option<WriteError>)

  ghost predicate Writes<T>(fails: nat -> bool, files: seq<Files<T>>, marks: seq<nat>, attempts: seq<Attempt<T>>) {
    && |files| == |marks| == |attempts| + 1
    && forall i :: 0 <= i < |attempts| ==>
         var t := attempts[i];
         WriteOutcome(fails, marks[i], marks[i + 1], files[i], files[i + 1], t.loc, t.env, t.random, t.err)
  }

  /** The last of the first n writes that stored this resource. */
  function LastStored<T>(attempts: seq<Attempt<T>>, n: nat, loc: Locator, name: string): Option<nat>
    requires n <= |attempts|
  {
    if n == 0 then None
    else
      var t := attempts[n - 1];
      if Stored(loc, name, t.loc, t.env.resource, t.err) then Some(n - 1) else LastStored(attempts, n - 1, loc, name)
  }

  /** After any sequence of writes under one root, to any instances and resources, failing or not, a
      read gives the envelope of the last successful write of its own resource, verbatim if its
      version is current and a miss if not; if there is none, it gives what it gave before. */
  lemma {:induction false} ReadIsLastStored<T>(fails: nat -> bool, files: seq<Files<T>>, marks: seq<nat>,
      attempts: seq<Attempt<T>>, n: nat, loc: Locator, name: string)
    requires Writes(fails, files, marks, attempts) && n <= |attempts|
    requires forall i :: 0 <= i < |attempts| ==> attempts[i].loc.root == loc.root
    ensures match LastStored(attempts, n, loc, name)
      case None =>
        && Read(files[n], loc, name) == Read(files[0], loc, name)
        && (loc.ResourceFile(name).Path? && loc.ResourceFile(name).path !in files[0] ==>
              Read(files[n], loc, name) == Miss)
      case Some(i) =>
        i < n && Read(files[n], loc, name) == if attempts[i].env.version == 1 then Hit(attempts[i].env) else Miss
  {
    hide WriteOutcome, Read, Locator.ResourceFile;
    AbsentIsMiss(files[0], loc, name);
    if n > 0 {
      ReadIsLastStored(fails, files, marks, attempts, n - 1, loc, name);
      var t := attempts[n - 1];
      assert WriteOutcome(fails, marks[n - 1], marks[n], files[n - 1], files[n], t.loc, t.env, t.random, t.err);
      if Stored(loc, name, t.loc, t.env.resource, t.err) {
        StoredIsRead(fails, marks[n - 1], marks[n], files[n - 1], files[n], loc, t.env, t.random, t.err);
      } else {
        WriteElsewhere(fails, marks[n - 1], marks[n], files[n - 1], files[n], t.loc, t.env, t.random, t.err, loc, name);
      }
    }
  }

  lemma AbsentIsMiss<T>(files: Files<T>, loc: Locator, name: string)
    ensures loc.ResourceFile(name).Path? && loc.ResourceFile(name).path !in files ==> Read(files, loc, name) == Miss
  {}

  lemma StoredIsRead<T>(fails: nat -> bool, start: nat, end: nat, a: Files<T>, b: Files<T>,
      loc: Locator, env: Envelope<T>, random: string, err: Option<WriteError>)
    requires WriteOutcome(fails, start, end, a, b, loc, env, random, err) && err.None?
    ensures Read(b, loc, env.resource) == if env.version == 1 then Hit(env) else Miss
  {
    hide ValidComponent, Locator.FileOf;
    ReadAfterWrite(a, loc, env);
  }

  /** A directory tree whose calls fail as scripted; a failing write leaves a partial file, every
      other failing call leaves things as they were. */
  class FileSystem<T> {
    var files: Files<T>
    var calls: nat
    const fails: nat -> bool

    constructor (files: Files<T>, fails: nat -> bool)
      ensures this.files == files && this.fails == fails
    {
      this.files, this.calls, this.fails := files, 0, fails;
    }

    method Next() returns (ok: bool)
      modifies this`calls
      ensures ok == !fails(old(calls)) && calls == old(calls) + 1
    {
      ok := !fails(calls);
      calls := calls + 1;
    }

    /** Creates a new file; an existing name is never taken over. */
    method CreateTemp(path: string) returns (ok: bool)
      modifies this
      ensures calls == old(calls) + 1 && (ok <==> !fails(old(calls)) && path !in old(files))
      ensures files == if ok then old(files)[path := Partial] else old(files)
    {
      ok := Next();
      ok := ok && path !in files;
      if ok {
        files := files[path := Partial];
      }
    }

    method Write(path: string, env: Envelope<T>) returns (ok: bool)
      requires path in files
      modifies this
      ensures calls == old(calls) + 1 && (ok <==> !fails(old(calls)))
      ensures files == old(files)[path := if ok then Complete(env) else Partial]
    {
      ok := Next();
      files := files[path := if ok then Complete(env) else Partial];
    }

    method Rename(from: string, into: string) returns (ok: bool)
      requires from in files && from != into
      modifies this
      ensures calls == old(calls) + 1 && (ok <==> !fails(old(calls)))
      ensures files == if ok then old(files)[into := old(files)[from]] - {from} else old(files)
    {
      ok := Next();
      if ok {
        files := files[into := files[from]] - {from};
      }
    }

    method Remove(path: string) returns (ok: bool)
      modifies this
      ensures calls == old(calls) + 1 && (ok <==> !fails(old(calls)))
      ensures files == if ok then old(files) - {path} else old(files)
    {
      ok := Next();
      if ok {
        files := files - {path};
      }
    }

    /** A caller-supplied envelope, verbatim, under its own resource name. `random` is the part of
        the temporary name that os.CreateTemp picks. */
    method WriteEnvelope(loc: Locator, env: Envelope<T>, random: string) returns (err: Option<WriteError>)
      modifies this
      ensures WriteOutcome(fails, old(calls), calls, old(files), files, loc, env, random, err)
    {
      if env.inst != loc.instanceKey {
        return Some(InstanceMismatch);
      }
      ghost var run;
      err, run := AtomicWriteEnvelope(loc, env.resource, env, random);
    }

    /** The identity, version and fetch time are stamped here. */
    method WriteResource(loc: Locator, name: string, now: int, ttl: string, data: T, random: string)
      returns (err: Option<WriteError>)
      modifies this
      ensures var env := Envelope(name, loc.instanceKey, now, ttl, 1, data);
        && WriteOutcome(fails, old(calls), calls, old(files), files, loc, env, random, err)
        && (err.None? ==> Read(files, loc, name) == Hit(env))
        && (err.Some? && loc.ResourceFile(name).Path? ==> Read(files, loc, name) == Read(old(files), loc, name))
    {
      var env := Envelope(name, loc.instanceKey, now, ttl, VERSION, data);
      ghost var before := files;
      err := WriteEnvelope(loc, env, random);
      if err.None? {
        ReadAfterWrite(before, loc, env);
      } else {
        FailureUnread(before, files, loc, name, random, loc, name);
      }
    }

    method AtomicWriteEnvelope(loc: Locator, name: string, env: Envelope<T>, random: string)
      returns (err: Option<WriteError>, ghost run: Trace<T>)
      modifies this
      ensures loc.ResourceFile(name).Refused? ==>
        err == Some(PathRefused(loc.ResourceFile(name).error)) && files == old(files) && calls == old(calls)
      ensures loc.ResourceFile(name).Path? ==>
        var tmp, path := loc.TempOf(name, random), loc.FileOf(name);
        && AtomicOutcome(fails, old(calls), calls, old(files), files, tmp, path, env, err)
        && StopsAtFirst(fails, old(calls), calls, 0, tmp in old(files), err)
        && Alone(run, old(files), files, path, env, EndPhase(old(files), files, tmp, err))
    {
      hide AtomicOutcome, Alone, ValidComponent, StopsAtFirst;
      var where := loc.ResourceFile(name);
      if where.Refused? {
        return Some(PathRefused(where.error)), Trace([], []);
      }
      TempIsNoResource(loc, name, random);
      err, run := ReplaceFile(loc.TempOf(name, random), where.path, env);
    }

    /** The write proper, from the directory to the rename. */
    method ReplaceFile(tmp: string, path: string, env: Envelope<T>)
      returns (err: Option<WriteError>, ghost run: Trace<T>)
      requires IsTemp(tmp) && IsResource(path) && tmp != path
      modifies this
      ensures AtomicOutcome(fails, old(calls), calls, old(files), files, tmp, path, env, err)
      ensures StopsAtFirst(fails, old(calls), calls, 0, tmp in old(files), err)
      ensures Alone(run, old(files), files, path, env, EndPhase(old(files), files, tmp, err))
    {
      hide Alone, Replaced, AtomicOutcome, IsTemp, IsResource, StopsAtFirst;
      ghost var before, start, taken := files, calls, tmp in files;
      ghost var givenUp, started := FirstSteps(before, tmp, path, env);
      var made := Next();
      if !made {
        FailedEarly(fails, old(calls), calls, before, tmp, path, env, MakeDirectory);
        StoppedHere(fails, start, 0, MakeDirectory, taken);
        return Some(Failed(MakeDirectory)), givenUp;
      }
      var encoded := Next();
      if !encoded {
        FailedEarly(fails, old(calls), calls, before, tmp, path, env, Encode);
        StoppedHere(fails, start + 1, 1, Encode, taken);
        WentOn(fails, start, calls, 0, taken, Some(Failed(Encode)));
        return Some(Failed(Encode)), givenUp;
      }
      var created := CreateTemp(tmp);
      if !created {
        FailedEarly(fails, old(calls), calls, before, tmp, path, env, CreateFile);
        StoppedHere(fails, start + 2, 2, CreateFile, taken);
        WentOn(fails, start + 1, calls, 1, taken, Some(Failed(CreateFile)));
        WentOn(fails, start, calls, 0, taken, Some(Failed(CreateFile)));
        return Some(Failed(CreateFile)), givenUp;
      }
      err, run := FillAndMove(tmp, path, env, before, started);
      CreatedFirst(fails, old(calls), calls, before, files, tmp, path, env, err);
      WentOn(fails, start + 2, calls, 2, taken, err);
      WentOn(fails, start + 1, calls, 1, taken, err);
      WentOn(fails, start, calls, 0, taken, err);
    }

    /** From the created temporary file to the rename; every error branch removes the file. */
    method FillAndMove(tmp: string, path: string, env: Envelope<T>, ghost before: Files<T>, ghost soFar: Trace<T>)
      returns (err: Option<WriteError>, ghost run: Trace<T>)
      requires tmp !in before && files == before[tmp := Partial] && tmp != path
      requires Alone(soFar, before, files, path, env, Created(tmp))
      modifies this
      ensures Alone(run, before, files, path, env, EndPhase(before, files, tmp, err))
      ensures Replaced(fails, old(calls), calls, before, files, tmp, path, env, err)
      ensures StopsAtFirst(fails, old(calls), calls, 3, false, err)
    {
      hide Alone, WriterStep, StopsAtFirst;
      GoodSteps(before, tmp, path, env);
      ghost var partial, whole := files, before[tmp := Complete(env)];
      run := soFar;
      var ok := Write(tmp, env);
      if !ok {
        assert fails(old(calls)) && files == partial;
        err, run := Discard(tmp, path, env, WriteFile, before, run, Created(tmp), old(calls), 3);
        return;
      }
      assert files == whole;
      run := Go(run, before, partial, path, env, Created(tmp), whole, Written(tmp));
      ghost var middle := calls;
      err, run := SealAndMove(tmp, path, env, before, run);
      AfterGoodCalls(fails, old(calls), middle, calls, before, files, tmp, path, env, err);
      WentOn(fails, old(calls), calls, 3, false, err);
    }

    /** Close, set the mode and rename. */
    method SealAndMove(tmp: string, path: string, env: Envelope<T>, ghost before: Files<T>, ghost soFar: Trace<T>)
      returns (err: Option<WriteError>, ghost run: Trace<T>)
      requires tmp !in before && files == before[tmp := Complete(env)] && tmp != path
      requires Alone(soFar, before, files, path, env, Written(tmp))
      modifies this
      ensures Alone(run, before, files, path, env, EndPhase(before, files, tmp, err))
      ensures Replaced(fails, old(calls), calls, before, files, tmp, path, env, err)
      ensures StopsAtFirst(fails, old(calls), calls, 4, false, err)
    {
      hide Alone, WriterStep, StopsAtFirst, Replaced, EndPhase;
      GoodSteps(before, tmp, path, env);
      ghost var whole, start := files, calls;
      run := soFar;
      var ok := Next();
      if !ok {
        err, run := Discard(tmp, path, env, CloseFile, before, run, Written(tmp), start, 4);
        return;
      }
      run := Go(run, before, whole, path, env, Written(tmp), whole, Closed(tmp));
      ok := Next();
      if !ok {
        err, run := Discard(tmp, path, env, SetMode, before, run, Closed(tmp), start, 4);
        return;
      }
      run := Go(run, before, whole, path, env, Closed(tmp), whole, Moded(tmp));
      ok := Rename(tmp, path);
      if !ok {
        err, run := Discard(tmp, path, env, MoveFile, before, run, Moded(tmp), start, 4);
        return;
      }
      assert files == before[path := Complete(env)];
      run := Go(run, before, whole, path, env, Moded(tmp), files, Finished);
      NoneFailed(fails, start, before, tmp, path, env);
      AllWent(fails, start);
      EndsFinished(before, files, tmp);
      return None, run;
    }

    /** Best-effort removal of the temporary file after the failed step of a stage, which is what the
        write reports. The write has made `done` calls before the one numbered `start`. */
    method Discard(tmp: string, path: string, env: Envelope<T>, stage: Stage, ghost before: Files<T>,
                   ghost soFar: Trace<T>, ghost phase: Phase, ghost start: nat, ghost done: nat)
      returns (err: Option<WriteError>, ghost run: Trace<T>)
      requires tmp !in before && tmp in files && files - {tmp} == before
      requires Alone(soFar, before, files, path, env, phase) && AtWork(phase, tmp, files)
      requires 3 <= done <= CallsBefore(stage) && calls == start + CallsBefore(stage) - done + 1
      requires fails(calls - 1) && !SomeFails(fails, start, calls - 1)
      modifies this
      ensures err == Some(Failed(stage)) && calls == old(calls) + 1
      ensures files == if fails(old(calls)) then old(files) else before
      ensures Alone(run, before, files, path, env, EndPhase(before, files, tmp, err))
      ensures Replaced(fails, start, calls, before, files, tmp, path, env, err)
      ensures StopsAtFirst(fails, start, calls, done, false, err)
    {
      hide Alone;
      var _ := Remove(tmp);
      run := CleanUp(soFar, before, old(files), path, env, phase, tmp, files);
      err := Some(Failed(stage));
      FailedLate(fails, start, calls, before, files, tmp, path, env, stage);
    }
  }

  datatype Request<T> = Request(loc: Locator, env: Envelope<T>, random: string)

  /** Whatever sequence of writes a client makes, what happens is such a sequence of outcomes. */
  method WriteAll<T>(fs: FileSystem<T>, requests: seq<Request<T>>)
    returns (attempts: seq<Attempt<T>>, ghost files: seq<Files<T>>, ghost marks: seq<nat>)
    modifies fs
    ensures Writes(fs.fails, files, marks, attempts)
    ensures files[0] == old(fs.files) && files[|attempts|] == fs.files && |attempts| == |requests|
    ensures marks[0] == old(fs.calls) && marks[|attempts|] == fs.calls
    ensures forall i :: 0 <= i < |requests| ==>
      requests[i] == Request(attempts[i].loc, attempts[i].env, attempts[i].random)
  {
    hide WriteOutcome;
    attempts, files, marks := [], [fs.files], [fs.calls];
    for n := 0 to |requests|
      invariant |attempts| == n && Writes(fs.fails, files, marks, attempts)
      invariant files[0] == old(fs.files) && files[n] == fs.files
      invariant marks[0] == old(fs.calls) && marks[n] == fs.calls
      invariant forall i :: 0 <= i < n ==> requests[i] == Request(attempts[i].loc, attempts[i].env, attempts[i].random)
    {
      var r := requests[n];
      var err := fs.WriteEnvelope(r.loc, r.env, r.random);
      attempts := attempts + [Attempt(r.loc, r.env, r.random, err)];
      files, marks := files + [fs.files], marks + [fs.calls];
    }
  }
}
