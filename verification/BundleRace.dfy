/** Any number of no-overwrite SetBundle calls racing on one memory backend, one backend call per
    step, in any order (credstore/bundle.go over credstore/memory.go). The only failure is losing
    a race: AlreadyExists. */
module BundleRace {
  import opened Text
  import opened Items
  import opened Backend
  import opened Bundle

  /** A validated call: its pairs, and its keys in the order it writes them. */
  datatype BundleCall = BundleCall(profile: string, kv: map<string, string>, keys: seq<string>) {
    ghost predicate Valid() {
      Enumerates(keys, kv.Keys)
    }

    function Item(i: nat): string
      requires i < |keys|
    {
      ItemKey(profile, keys[i])
    }
  }

  /** Where a call is: looking for conflicts, writing, undoing its writes, or finished. */
  datatype Phase = Scanning(next: nat, conflict: bool) | Writing | RollingBack(next: nat) | Done(ok: bool)

  /** `written` counts the successful writes and is kept through rollback. */
  datatype Proc = Proc(call: BundleCall, phase: Phase, written: nat)

  datatype State = State(store: Contents, procs: seq<Proc>)

  function Start(call: BundleCall): Proc {
    Proc(call, if call.keys == [] then Done(true) else Scanning(0, false), 0)
  }

  ghost predicate WellFormedProc(proc: Proc) {
    var n := |proc.call.keys|;
    && proc.call.Valid()
    && proc.written <= n
    && match proc.phase
       case Scanning(next, _) => next < n && proc.written == 0
       case Writing => proc.written < n
       case RollingBack(next) => next < proc.written < n
       case Done(ok) => ok <==> proc.written == n
  }

  // ---------- one backend call ----------

  /** exists: after the last key the call gives up on any conflict, else starts writing. */
  ghost predicate ScanStep(a: Contents, x: Proc, b: Contents, y: Proc) {
    && x.phase.Scanning? && x.phase.next < |x.call.keys|
    && b == a
    && var conflict := x.phase.conflict || x.call.Item(x.phase.next) in a;
       var last := x.phase.next + 1 == |x.call.keys|;
       y == x.(phase := if !last then Scanning(x.phase.next + 1, conflict)
                        else if conflict then Done(false) else Writing)
  }

  /** set without overwrite, as the memory backend does it with no hook installed. */
  ghost predicate WriteStep(a: Contents, x: Proc, b: Contents, y: Proc) {
    && x.phase.Writing? && x.written < |x.call.keys|
    && var key := x.call.keys[x.written];
       var item := x.call.Item(x.written);
       && key in x.call.kv
       && var err := if item in a then Some(AlreadyExists) else None;
          && SetOutcome(a, b, item, x.call.kv[key], false, err)
          && y == if err.Some? then x.(phase := if x.written == 0 then Done(false) else RollingBack(0))
                  else x.(written := x.written + 1,
                          phase := if x.written + 1 == |x.call.keys| then Done(true) else Writing)
  }

  /** delete of one written key; a missing key counts as deleted. */
  ghost predicate UndoStep(a: Contents, x: Proc, b: Contents, y: Proc) {
    && x.phase.RollingBack? && x.phase.next < x.written <= |x.call.keys|
    && var item := x.call.Item(x.phase.next);
       && DeleteOutcome(a, b, item, if item in a then None else Some(NotFound))
       && y == x.(phase := if x.phase.next + 1 == x.written then Done(false) else RollingBack(x.phase.next + 1))
  }

  ghost predicate ProcStep(a: Contents, x: Proc, b: Contents, y: Proc) {
    ScanStep(a, x, b, y) || WriteStep(a, x, b, y) || UndoStep(a, x, b, y)
  }

  /** BundleCall p makes its next backend call. */
  ghost predicate Next(s: State, p: nat, t: State) {
    && p < |s.procs| == |t.procs|
    && t.procs == s.procs[p := t.procs[p]]
    && ProcStep(s.store, s.procs[p], t.store, t.procs[p])
  }

  ghost predicate Init(initial: Contents, calls: seq<BundleCall>, s: State) {
    && s.store == initial
    && |s.procs| == |calls|
    && forall p :: 0 <= p < |calls| ==> calls[p].Valid() && s.procs[p] == Start(calls[p])
  }

  ghost predicate Run(initial: Contents, calls: seq<BundleCall>, states: seq<State>, schedule: seq<nat>) {
    && |states| == |schedule| + 1
    && Init(initial, calls, states[0])
    && forall i :: 0 <= i < |schedule| ==> Next(states[i], schedule[i], states[i + 1])
  }

  // ---------- who holds which key ----------

  /** The writes of a call that are still in the store. */
  ghost predicate Owns(proc: Proc, i: nat) {
    && i < |proc.call.keys| && i < proc.written
    && match proc.phase
       case Scanning(_, _) => false
       case Writing => true
       case RollingBack(next) => next <= i
       case Done(ok) => ok
  }

  ghost predicate Holds(proc: Proc, k: string) {
    exists i: nat :: Owns(proc, i) && proc.call.Item(i) == k
  }

  ghost predicate HoldsValue(proc: Proc, store: Contents) {
    forall i: nat :: Owns(proc, i) ==>
      && proc.call.keys[i] in proc.call.kv
      && proc.call.Item(i) in store && store[proc.call.Item(i)] == proc.call.kv[proc.call.keys[i]]
  }

  /** The store is the initial contents plus what the calls hold, and no key is held twice. */
  ghost predicate Inv(initial: Contents, s: State) {
    && (forall p :: 0 <= p < |s.procs| ==> WellFormedProc(s.procs[p]) && HoldsValue(s.procs[p], s.store))
    && (forall p, k :: 0 <= p < |s.procs| && Holds(s.procs[p], k) ==> k !in initial)
    && (forall p, q, k :: 0 <= p < q < |s.procs| && Holds(s.procs[p], k) ==> !Holds(s.procs[q], k))
    && (forall k :: k in initial ==> SameAt(initial, s.store, k))
    && (forall k :: k in s.store && k !in initial ==> HeldBySome(s.procs, k))
  }

  ghost predicate HeldBySome(procs: seq<Proc>, k: string) {
    exists p :: 0 <= p < |procs| && Holds(procs[p], k)
  }

  lemma KeysDistinct(call: BundleCall, i: nat, j: nat)
    requires call.Valid() && i < |call.keys| && j < |call.keys|
    requires call.Item(i) == call.Item(j)
    ensures i == j
  {
    SameProfileInjective(call.profile, call.keys[i], call.keys[j]);
    if i < j {
      LessTrichotomy(call.keys[i], call.keys[j]);
    } else if j < i {
      LessTrichotomy(call.keys[j], call.keys[i]);
    }
  }

  /** What one backend call does to the store and to what its caller holds. */
  datatype Change = Nothing | Gains(item: string, value: string) | Gives(item: string)

  ghost predicate Changes(a: Contents, x: Proc, b: Contents, y: Proc, change: Change) {
    match change
    case Nothing => b == a && forall k :: Holds(y, k) <==> Holds(x, k)
    case Gains(item, value) =>
      item !in a && b == a[item := value] && forall k :: Holds(y, k) <==> Holds(x, k) || k == item
    case Gives(item) =>
      Holds(x, item) && b == a - {item} && forall k :: Holds(y, k) <==> Holds(x, k) && k != item
  }

  lemma ScanChanges(a: Contents, x: Proc, b: Contents, y: Proc)
    requires WellFormedProc(x) && HoldsValue(x, a) && ScanStep(a, x, b, y)
    ensures WellFormedProc(y) && HoldsValue(y, b) && Changes(a, x, b, y, Nothing)
  {}

  lemma WriteChanges(a: Contents, x: Proc, b: Contents, y: Proc) returns (change: Change)
    requires WellFormedProc(x) && HoldsValue(x, a) && WriteStep(a, x, b, y)
    ensures WellFormedProc(y) && HoldsValue(y, b) && Changes(a, x, b, y, change) && !change.Gives?
  {
    var item := x.call.Item(x.written);
    if item in a {
      change := Nothing;
      assert forall i: nat :: Owns(y, i) <==> Owns(x, i);
    } else {
      change := Gains(item, x.call.kv[x.call.keys[x.written]]);
      assert forall i: nat :: Owns(y, i) <==> Owns(x, i) || i == x.written;
      forall k ensures Holds(y, k) <==> Holds(x, k) || k == item {
        assert Owns(y, x.written);
      }
    }
  }

  lemma UndoChanges(a: Contents, x: Proc, b: Contents, y: Proc)
    requires WellFormedProc(x) && HoldsValue(x, a) && UndoStep(a, x, b, y)
    ensures WellFormedProc(y) && HoldsValue(y, b)
    ensures Changes(a, x, b, y, Gives(x.call.Item(x.phase.next)))
  {
    var at := x.phase.next;
    var item := x.call.Item(at);
    assert Owns(x, at);
    assert forall i: nat :: Owns(y, i) <==> Owns(x, i) && i != at;
    forall i: nat | Owns(y, i) ensures x.call.Item(i) != item {
      if x.call.Item(i) == item { KeysDistinct(x.call, i, at); }
    }
    forall k ensures Holds(y, k) <==> Holds(x, k) && k != item {
      if Holds(x, k) && k != item {
        var i: nat :| Owns(x, i) && x.call.Item(i) == k;
        assert Owns(y, i);
      }
    }
  }

  lemma StepChanges(a: Contents, x: Proc, b: Contents, y: Proc) returns (change: Change)
    requires WellFormedProc(x) && HoldsValue(x, a) && ProcStep(a, x, b, y)
    ensures WellFormedProc(y) && HoldsValue(y, b) && Changes(a, x, b, y, change)
  {
    hide WellFormedProc, HoldsValue, Changes;
    if ScanStep(a, x, b, y) {
      ScanChanges(a, x, b, y);
      change := Nothing;
    } else if WriteStep(a, x, b, y) {
      change := WriteChanges(a, x, b, y);
    } else {
      UndoChanges(a, x, b, y);
      change := Gives(x.call.Item(x.phase.next));
    }
  }

  /** Values held by another call survive a change it does not take part in. */
  lemma OthersKeepValues(a: Contents, b: Contents, change: Change, x: Proc, y: Proc, other: Proc)
    requires Changes(a, x, b, y, change) && HoldsValue(other, a)
    requires forall k :: Holds(x, k) ==> !Holds(other, k)
    ensures HoldsValue(other, b)
  {}

  lemma StepKeepsInv(initial: Contents, s: State, p: nat, t: State)
    requires Inv(initial, s) && Next(s, p, t)
    ensures Inv(initial, t)
  {
    hide WellFormedProc, Holds, HoldsValue, ProcStep;
    var x, y := s.procs[p], t.procs[p];
    var change := StepChanges(s.store, x, t.store, y);
    assert forall q :: 0 <= q < |s.procs| && q != p ==> t.procs[q] == s.procs[q];
    forall q | 0 <= q < |s.procs| && q != p ensures HoldsValue(t.procs[q], t.store) {
      OthersKeepValues(s.store, t.store, change, x, y, s.procs[q]);
    }
    NewKeyIsFree(initial, s, change);
    forall q, k | 0 <= q < |t.procs| && Holds(t.procs[q], k) ensures k !in initial {
      assert q == p || Holds(s.procs[q], k);
    }
    forall q, r, k | 0 <= q < r < |t.procs| && Holds(t.procs[q], k) ensures !Holds(t.procs[r], k) {
      assert q != p ==> Holds(s.procs[q], k);
    }
    forall k | k in t.store && k !in initial ensures HeldBySome(t.procs, k) {
      if change.Gains? && k == change.item {
        assert Holds(t.procs[p], k);
      } else {
        assert HeldBySome(s.procs, k);
        var q :| 0 <= q < |s.procs| && Holds(s.procs[q], k);
        assert Holds(t.procs[q], k);
      }
    }
  }

  lemma NewKeyIsFree(initial: Contents, s: State, change: Change)
    requires Inv(initial, s)
    ensures change.Gains? && change.item !in s.store ==>
      change.item !in initial && forall q :: 0 <= q < |s.procs| ==> !Holds(s.procs[q], change.item)
  {}

  lemma InitInv(initial: Contents, calls: seq<BundleCall>, s: State)
    requires Init(initial, calls, s)
    ensures Inv(initial, s)
  {}

  lemma {:induction false} RunKeepsInv(initial: Contents, calls: seq<BundleCall>, states: seq<State>,
      schedule: seq<nat>, n: nat)
    requires Run(initial, calls, states, schedule) && n < |states|
    ensures Inv(initial, states[n])
    ensures |states[n].procs| == |calls|
    ensures forall p :: 0 <= p < |calls| ==> states[n].procs[p].call == calls[p]
  {
    hide Inv, ProcStep;
    if n == 0 {
      InitInv(initial, calls, states[0]);
      assert forall p :: 0 <= p < |calls| ==> states[0].procs[p] == Start(calls[p]);
    } else {
      RunKeepsInv(initial, calls, states, schedule, n - 1);
      assert Next(states[n - 1], schedule[n - 1], states[n]);
      StepKeepsInv(initial, states[n - 1], schedule[n - 1], states[n]);
      StepKeepsCall(states[n - 1], schedule[n - 1], states[n]);
    }
  }

  lemma StepKeepsCall(s: State, p: nat, t: State)
    requires Next(s, p, t)
    ensures forall q :: 0 <= q < |s.procs| ==>
      t.procs[q].call == s.procs[q].call && s.procs[q].written <= t.procs[q].written
  {}

  // ---------- safety ----------

  /** In every reachable state, the key a rollback deletes next is there, with the value this very
      call wrote; it was not there initially and no other call holds it. */
  lemma DeletesOnlyItsOwn(initial: Contents, calls: seq<BundleCall>, states: seq<State>, schedule: seq<nat>, n: nat,
      p: nat)
    requires Run(initial, calls, states, schedule) && n < |states|
    requires p < |states[n].procs| && states[n].procs[p].phase.RollingBack?
    ensures var proc := states[n].procs[p];
      && proc.phase.next < |proc.call.keys|
      && var item := proc.call.Item(proc.phase.next);
         && item in states[n].store && proc.call.keys[proc.phase.next] in proc.call.kv
         && states[n].store[item] == proc.call.kv[proc.call.keys[proc.phase.next]]
         && item !in initial
         && forall q :: 0 <= q < |states[n].procs| && q != p ==> !Holds(states[n].procs[q], item)
  {
    RunKeepsInv(initial, calls, states, schedule, n);
    var proc := states[n].procs[p];
    assert WellFormedProc(proc) && HoldsValue(proc, states[n].store);
    assert Owns(proc, proc.phase.next);
    assert Holds(proc, proc.call.Item(proc.phase.next));
  }

  ghost predicate AllDone(s: State) {
    forall p :: 0 <= p < |s.procs| ==> s.procs[p].phase.Done?
  }

  ghost predicate Succeeded(s: State, p: int) {
    0 <= p < |s.procs| && s.procs[p].phase == Done(true)
  }

  ghost predicate Writes(call: BundleCall, itemKey: string, key: string) {
    key in call.kv && itemKey == ItemKey(call.profile, key)
  }

  lemma DoneHolds(proc: Proc, k: string)
    requires WellFormedProc(proc) && proc.phase.Done?
    ensures Holds(proc, k) <==> proc.phase.ok && exists key :: Writes(proc.call, k, key)
  {
    if proc.phase.ok && exists key :: Writes(proc.call, k, key) {
      var key :| Writes(proc.call, k, key);
      var i: nat :| i < |proc.call.keys| && proc.call.keys[i] == key;
      assert Owns(proc, i);
    }
    if Holds(proc, k) {
      var i: nat :| Owns(proc, i) && proc.call.Item(i) == k;
      assert proc.call.keys[i] in proc.call.keys;
      assert Writes(proc.call, k, proc.call.keys[i]);
    }
  }

  /** All or none, under every interleaving: when all calls have finished, the store is the initial
      contents plus every pair of every successful call, and nothing of a failed one. The keys of
      successful calls are disjoint from each other and from the initial ones. */
  lemma FinishedRun(initial: Contents, calls: seq<BundleCall>, states: seq<State>, schedule: seq<nat>, n: nat)
    requires Run(initial, calls, states, schedule) && n < |states| && AllDone(states[n])
    ensures forall k :: k in initial ==> SameAt(initial, states[n].store, k)
    ensures forall p, k, key :: Succeeded(states[n], p) && Writes(states[n].procs[p].call, k, key) ==>
      k !in initial && k in states[n].store && states[n].store[k] == states[n].procs[p].call.kv[key]
    ensures forall k :: k in states[n].store && k !in initial ==>
      exists p, key :: Succeeded(states[n], p) && Writes(states[n].procs[p].call, k, key)
    ensures forall p, q, k, key, key' ::
      && Succeeded(states[n], p) && Succeeded(states[n], q)
      && Writes(states[n].procs[p].call, k, key) && Writes(states[n].procs[q].call, k, key')
      ==> p == q
  {
    RunKeepsInv(initial, calls, states, schedule, n);
    var s := states[n];
    forall p, k | 0 <= p < |s.procs|
      ensures Holds(s.procs[p], k) <==> s.procs[p].phase.ok && exists key :: Writes(s.procs[p].call, k, key)
    {
      DoneHolds(s.procs[p], k);
    }
    forall p, k, key | Succeeded(s, p) && Writes(s.procs[p].call, k, key)
      ensures Holds(s.procs[p], k) && k !in initial && k in s.store && s.store[k] == s.procs[p].call.kv[key]
    {
      HeldValue(s.procs[p], s.store, k, key);
    }
    forall k | k in s.store && k !in initial
      ensures exists p, key :: Succeeded(s, p) && Writes(s.procs[p].call, k, key)
    {
      assert HeldBySome(s.procs, k);
      var p :| 0 <= p < |s.procs| && Holds(s.procs[p], k);
      var key :| Writes(s.procs[p].call, k, key);
      assert Succeeded(s, p);
    }
  }

  lemma HeldValue(proc: Proc, store: Contents, k: string, key: string)
    requires HoldsValue(proc, store) && Holds(proc, k) && Writes(proc.call, k, key)
    ensures k in store && store[k] == proc.call.kv[key]
  {
    var i: nat :| Owns(proc, i) && proc.call.Item(i) == k;
    SameProfileInjective(proc.call.profile, proc.call.keys[i], key);
  }

  // ---------- progress ----------

  /** The call has met, or will act on, a key that was taken. */
  ghost predicate Lost(proc: Proc) {
    match proc.phase
    case Scanning(_, conflict) => conflict
    case Writing => false
    case RollingBack(_) => true
    case Done(ok) => !ok
  }

  /** A key x never wrote is one that y did write at some time. */
  ghost predicate Blocked(x: Proc, i: nat, y: Proc, j: nat) {
    && x.written <= i < |x.call.keys|
    && j < y.written && j < |y.call.keys|
    && x.call.Item(i) == y.call.Item(j)
  }

  ghost predicate BlockedBySome(procs: seq<Proc>, x: Proc) {
    exists q, i: nat, j: nat :: 0 <= q < |procs| && Blocked(x, i, procs[q], j)
  }

  /** Every losing call lost a key to a call that had written it. */
  ghost predicate Explained(s: State) {
    forall p :: 0 <= p < |s.procs| && Lost(s.procs[p]) ==> BlockedBySome(s.procs, s.procs[p])
  }

  ghost predicate NoneThere(initial: Contents, calls: seq<BundleCall>) {
    forall p, i: nat :: 0 <= p < |calls| && i < |calls[p].keys| ==> calls[p].Item(i) !in initial
  }

  /** A key found in the store was written by one of the calls. */
  lemma TakenByCall(initial: Contents, s: State, x: Proc, i: nat)
    requires Inv(initial, s)
    requires x.written <= i < |x.call.keys| && x.call.Item(i) in s.store && x.call.Item(i) !in initial
    ensures BlockedBySome(s.procs, x)
  {
    assert HeldBySome(s.procs, x.call.Item(i));
    var q :| 0 <= q < |s.procs| && Holds(s.procs[q], x.call.Item(i));
    var j: nat :| Owns(s.procs[q], j) && s.procs[q].call.Item(j) == x.call.Item(i);
    assert Blocked(x, i, s.procs[q], j);
  }

  lemma BlockedStays(s: State, p: nat, t: State, x: Proc, y: Proc)
    requires Next(s, p, t) && BlockedBySome(s.procs, x)
    requires y.call == x.call && y.written == x.written
    ensures BlockedBySome(t.procs, y)
  {
    StepKeepsCall(s, p, t);
    var q, i: nat, j: nat :| 0 <= q < |s.procs| && Blocked(x, i, s.procs[q], j);
    assert Blocked(y, i, t.procs[q], j);
  }

  /** A call that loses now has met a taken key now, or had met one before. */
  lemma LosesToTakenKey(a: Contents, x: Proc, b: Contents, y: Proc) returns (i: nat)
    requires WellFormedProc(x) && ProcStep(a, x, b, y) && Lost(y)
    ensures y.call == x.call && y.written == x.written
    ensures Lost(x) || (x.written <= i < |x.call.keys| && x.call.Item(i) in a)
  {
    i := if x.phase.Scanning? then x.phase.next else x.written;
  }

  lemma StepKeepsExplained(initial: Contents, s: State, p: nat, t: State)
    requires Inv(initial, s) && Explained(s) && Next(s, p, t)
    requires forall i: nat :: i < |s.procs[p].call.keys| ==> s.procs[p].call.Item(i) !in initial
    ensures Explained(t)
  {
    hide ProcStep, Lost, BlockedBySome;
    var x, y := s.procs[p], t.procs[p];
    assert WellFormedProc(x);
    hide WellFormedProc;
    if Lost(y) {
      var i := LosesToTakenKey(s.store, x, t.store, y);
      if !Lost(x) {
        TakenByCall(initial, s, x, i);
      }
      BlockedStays(s, p, t, x, y);
    }
    forall q | 0 <= q < |t.procs| && q != p && Lost(t.procs[q]) ensures BlockedBySome(t.procs, t.procs[q]) {
      assert t.procs[q] == s.procs[q];
      BlockedStays(s, p, t, s.procs[q], t.procs[q]);
    }
  }

  lemma {:induction false} RunKeepsExplained(initial: Contents, calls: seq<BundleCall>, states: seq<State>,
      schedule: seq<nat>, n: nat)
    requires Run(initial, calls, states, schedule) && n < |states| && NoneThere(initial, calls)
    ensures Explained(states[n])
  {
    hide ProcStep, BlockedBySome, Inv;
    if n == 0 {
      assert forall p :: 0 <= p < |calls| ==> states[0].procs[p] == Start(calls[p]);
    } else {
      RunKeepsExplained(initial, calls, states, schedule, n - 1);
      RunKeepsInv(initial, calls, states, schedule, n - 1);
      assert Next(states[n - 1], schedule[n - 1], states[n]);
      StepKeepsExplained(initial, states[n - 1], schedule[n - 1], states[n]);
    }
  }

  lemma ItemsAscend(call: BundleCall, i: nat, j: nat)
    requires call.Valid() && i < j < |call.keys|
    ensures Less(call.Item(i), call.Item(j))
  {
    LessUnderPrefix(call.profile + "/", call.keys[i], call.keys[j]);
  }

  /** The largest key a call has written. */
  function Top(proc: Proc): string
    requires 0 < proc.written <= |proc.call.keys|
  {
    proc.call.Item(proc.written - 1)
  }

  ghost predicate HasWritten(proc: Proc) {
    0 < proc.written <= |proc.call.keys|
  }

  /** Among the first n calls, one that wrote a key no smaller than any other wrote. */
  lemma {:induction false} LargestWritten(procs: seq<Proc>, n: nat) returns (m: nat)
    requires n <= |procs| && exists q :: 0 <= q < n && HasWritten(procs[q])
    ensures m < n && HasWritten(procs[m])
    ensures forall q :: 0 <= q < n && HasWritten(procs[q]) ==> !Less(Top(procs[m]), Top(procs[q]))
  {
    hide Top;
    var last := procs[n - 1];
    if exists q :: 0 <= q < n - 1 && HasWritten(procs[q]) {
      m := LargestWritten(procs, n - 1);
      if HasWritten(last) && Less(Top(procs[m]), Top(last)) {
        forall q | 0 <= q < n && HasWritten(procs[q]) ensures !Less(Top(last), Top(procs[q])) {
          LessTrichotomy(Top(last), Top(last));
          if q < n - 1 && Less(Top(last), Top(procs[q])) {
            LessTransitive(Top(procs[m]), Top(last), Top(procs[q]));
          }
        }
        m := n - 1;
      }
    } else {
      m := n - 1;
      LessTrichotomy(Top(last), Top(last));
    }
  }

  /** A call blocked after writing its top key lost to a call that wrote a larger one. */
  lemma BlockerIsLarger(x: Proc, i: nat, y: Proc, j: nat)
    requires WellFormedProc(x) && WellFormedProc(y) && Blocked(x, i, y, j) && HasWritten(x)
    ensures HasWritten(y) && Less(Top(x), Top(y))
  {
    ItemsAscend(x.call, x.written - 1, i);
    if j < y.written - 1 {
      ItemsAscend(y.call, j, y.written - 1);
      LessTransitive(Top(x), y.call.Item(j), Top(y));
    }
  }

  /** No livelock: if no target was there initially, at least one of the finished calls succeeded,
      whatever the interleaving. */
  lemma SomeCallSucceeds(initial: Contents, calls: seq<BundleCall>, states: seq<State>, schedule: seq<nat>, n: nat)
    requires Run(initial, calls, states, schedule) && n < |states| && AllDone(states[n])
    requires calls != [] && NoneThere(initial, calls)
    ensures exists p :: Succeeded(states[n], p)
  {
    hide ProcStep, Top, Blocked;
    var s := states[n];
    RunKeepsInv(initial, calls, states, schedule, n);
    RunKeepsExplained(initial, calls, states, schedule, n);
    if !exists p :: Succeeded(s, p) {
      assert forall p :: 0 <= p < |s.procs| ==> Lost(s.procs[p]) by {
        forall p | 0 <= p < |s.procs| ensures Lost(s.procs[p]) {
          assert s.procs[p].phase.Done? && !Succeeded(s, p);
        }
      }
      assert BlockedBySome(s.procs, s.procs[0]);
      var q, i: nat, j: nat :| 0 <= q < |s.procs| && Blocked(s.procs[0], i, s.procs[q], j);
      BlockerWrote(s.procs[0], i, s.procs[q], j);
      var m := LargestWritten(s.procs, |s.procs|);
      assert BlockedBySome(s.procs, s.procs[m]);
      var r, i', j' : nat :| 0 <= r < |s.procs| && i' >= 0 && Blocked(s.procs[m], i', s.procs[r], j');
      BlockerIsLarger(s.procs[m], i', s.procs[r], j');
      assert false;
    }
  }

  lemma BlockerWrote(x: Proc, i: nat, y: Proc, j: nat)
    requires Blocked(x, i, y, j) && WellFormedProc(y)
    ensures HasWritten(y)
  {}

  // ---------- every run ends ----------

  /** An upper bound on the backend calls a call can still make. */
  function Work(proc: Proc): int {
    var n := |proc.call.keys|;
    match proc.phase
    case Scanning(next, _) => 3 * n - next
    case Writing => 2 * n - proc.written
    case RollingBack(next) => proc.written - next
    case Done(_) => 0
  }

  function TotalWork(procs: seq<Proc>): int {
    if procs == [] then 0 else Work(procs[0]) + TotalWork(procs[1..])
  }

  lemma StepDoesWork(a: Contents, x: Proc, b: Contents, y: Proc)
    requires WellFormedProc(x) && ProcStep(a, x, b, y)
    ensures 0 <= Work(y) < Work(x)
  {}

  lemma {:induction false} TotalWorkUpdate(procs: seq<Proc>, p: nat, y: Proc)
    requires p < |procs|
    ensures TotalWork(procs[p := y]) == TotalWork(procs) - Work(procs[p]) + Work(y)
  {
    if p == 0 {
      assert procs[0 := y][1..] == procs[1..];
    } else {
      TotalWorkUpdate(procs[1..], p - 1, y);
      assert procs[p := y][1..] == procs[1..][p - 1 := y];
    }
  }

  lemma {:induction false} TotalWorkNonNegative(procs: seq<Proc>)
    requires forall p :: 0 <= p < |procs| ==> WellFormedProc(procs[p])
    ensures TotalWork(procs) >= 0
  {
    if procs != [] {
      assert WellFormedProc(procs[0]);
      assert forall p :: 0 <= p < |procs[1..]| ==> procs[1..][p] == procs[p + 1];
      TotalWorkNonNegative(procs[1..]);
    }
  }

  lemma {:induction false} RunIsBounded(initial: Contents, calls: seq<BundleCall>, states: seq<State>,
      schedule: seq<nat>, n: nat)
    requires Run(initial, calls, states, schedule) && n < |states|
    ensures n <= TotalWork(states[0].procs) - TotalWork(states[n].procs)
  {
    hide ProcStep, Work;
    if n > 0 {
      RunIsBounded(initial, calls, states, schedule, n - 1);
      RunKeepsInv(initial, calls, states, schedule, n - 1);
      var p := schedule[n - 1];
      assert Next(states[n - 1], p, states[n]);
      StepDoesWork(states[n - 1].store, states[n - 1].procs[p], states[n].store, states[n].procs[p]);
      TotalWorkUpdate(states[n - 1].procs, p, states[n].procs[p]);
    }
  }

  /** A call that is not done can always make its next backend call. */
  lemma CanStep(a: Contents, x: Proc) returns (b: Contents, y: Proc)
    requires WellFormedProc(x) && !x.phase.Done?
    ensures ProcStep(a, x, b, y)
  {
    b := a;
    match x.phase {
      case Scanning(next, c) =>
        var conflict := c || x.call.Item(next) in a;
        y := x.(phase := if next + 1 != |x.call.keys| then Scanning(next + 1, conflict)
                         else if conflict then Done(false) else Writing);
        assert ScanStep(a, x, b, y);
      case Writing =>
        var item, key := x.call.Item(x.written), x.call.keys[x.written];
        assert key in x.call.keys;
        if item in a {
          y := x.(phase := if x.written == 0 then Done(false) else RollingBack(0));
        } else {
          b := a[item := x.call.kv[key]];
          y := x.(written := x.written + 1, phase := if x.written + 1 == |x.call.keys| then Done(true) else Writing);
        }
        assert WriteStep(a, x, b, y);
      case RollingBack(next) =>
        b := a - {x.call.Item(next)};
        y := x.(phase := if next + 1 == x.written then Done(false) else RollingBack(next + 1));
        assert UndoStep(a, x, b, y);
    }
  }

  /** Any schedule that never stops early finishes within TotalWork steps, and then some call has
      succeeded: a run either can be extended or has a winner. */
  lemma EveryRunFindsWinner(initial: Contents, calls: seq<BundleCall>, states: seq<State>, schedule: seq<nat>)
    requires Run(initial, calls, states, schedule) && calls != [] && NoneThere(initial, calls)
    ensures |schedule| <= TotalWork(states[0].procs)
    ensures (exists p, t :: Next(states[|schedule|], p, t)) || (exists p :: Succeeded(states[|schedule|], p))
  {
    var s := states[|schedule|];
    RunKeepsInv(initial, calls, states, schedule, |schedule|);
    RunIsBounded(initial, calls, states, schedule, |schedule|);
    TotalWorkNonNegative(s.procs);
    if AllDone(s) {
      SomeCallSucceeds(initial, calls, states, schedule, |schedule|);
    } else {
      var p :| 0 <= p < |s.procs| && !s.procs[p].phase.Done?;
      var b, y := CanStep(s.store, s.procs[p]);
      assert Next(s, p, State(b, s.procs[p := y]));
    }
  }

  /** A call that races with nobody does what SetBundle promises on a backend that never fails: it
      succeeds iff no target was there, and otherwise changes nothing. */
  lemma LoneCallIsSetBundle(initial: Contents, call: BundleCall, states: seq<State>, schedule: seq<nat>, n: nat)
    requires Run(initial, [call], states, schedule) && n < |states| && AllDone(states[n])
    ensures Succeeded(states[n], 0) <==> Existing(initial, call.profile, call.kv.Keys) == {}
    ensures Succeeded(states[n], 0) ==> AllWritten(initial, states[n].store, call.profile, call.kv)
    ensures !Succeeded(states[n], 0) ==> states[n].store == initial
  {
    hide ProcStep, Inv;
    var s := states[n];
    RunKeepsInv(initial, [call], states, schedule, n);
    FinishedRun(initial, [call], states, schedule, n);
    assert s.procs[0].call == call && call.Valid();
    forall k | k in call.kv ensures Writes(call, ItemKey(call.profile, k), k) {}
    if Existing(initial, call.profile, call.kv.Keys) == {} {
      forall i: nat | i < |call.keys| ensures call.Item(i) !in initial {
        assert call.keys[i] in call.keys;
        assert call.keys[i] in Existing(initial, call.profile, call.kv.Keys) <==> call.Item(i) in initial;
      }
      SomeCallSucceeds(initial, [call], states, schedule, n);
    }
    if !Succeeded(s, 0) {
      assert forall p :: Succeeded(s, p) ==> p == 0;
      assert forall k :: SameAt(initial, s.store, k);
      SameEverywhere(initial, s.store);
    }
  }

  // ---------- the code makes the calls of the race ----------

  ghost predicate Working(x: Proc) {
    match x.phase
    case Scanning(next, _) => next < |x.call.keys|
    case Writing => x.written < |x.call.keys|
    case RollingBack(next) => next < |x.call.keys|
    case Done(_) => false
  }

  /** The backend call of the next step. */
  ghost function Asks(x: Proc): (Kind, string)
    requires Working(x)
  {
    match x.phase
    case Scanning(next, _) => (ExistsCall, x.call.Item(next))
    case Writing => (SetCall(false), x.call.Item(x.written))
    case RollingBack(next) => (DeleteCall, x.call.Item(next))
  }

  /** The process after its next step, which found its item there or not. */
  ghost function After(x: Proc, there: bool): Proc
    requires Working(x)
  {
    var n := |x.call.keys|;
    match x.phase
    case Scanning(next, conflict) =>
      x.(phase := if next + 1 < n then Scanning(next + 1, conflict || there)
                  else if conflict || there then Done(false) else Writing)
    case Writing =>
      if there then x.(phase := if x.written == 0 then Done(false) else RollingBack(0))
      else x.(written := x.written + 1, phase := if x.written + 1 == n then Done(true) else Writing)
    case RollingBack(next) => x.(phase := if next + 1 == x.written then Done(false) else RollingBack(next + 1))
  }

  /** A process of a race goes on by what its call finds, and by nothing else. */
  lemma StepIsAfter(a: Contents, x: Proc, b: Contents, y: Proc)
    requires ProcStep(a, x, b, y)
    ensures Working(x) && y == After(x, Asks(x).1 in a)
  {}

  /** The calls are, one by one, those of a process from its start to its end. */
  ghost predicate Plays(call: BundleCall, calls: seq<Call>, there: seq<bool>, procs: seq<Proc>) {
    && |procs| == |calls| + 1 == |there| + 1
    && procs[0] == Start(call) && procs[|calls|].phase.Done?
    && forall i :: 0 <= i < |calls| ==> Plays1(calls[i], there[i], procs[i], procs[i + 1])
  }

  ghost predicate Plays1(call: Call, there: bool, x: Proc, y: Proc) {
    Working(x) && (call.kind, call.itemKey) == Asks(x) && y == After(x, there)
  }

  /** The process after i calls when no target was there and the write of key w lost the race; with w
      the number of keys, none did. */
  ghost function ProcAt(call: BundleCall, w: nat, i: nat): Proc
    requires w <= |call.keys|
  {
    var n := |call.keys|;
    if i < n then Proc(call, Scanning(i, false), 0)
    else if i < 2 * n && i <= n + w then Proc(call, Writing, i - n)
    else if w == n then Proc(call, Done(true), n)
    else if i <= n + 2 * w then Proc(call, RollingBack(i - n - w - 1), w)
    else Proc(call, Done(false), w)
  }

  ghost predicate IsDelete(call: Call, profile: string, key: string) {
    call.kind == DeleteCall && call.itemKey == ItemKey(profile, key)
  }

  /** Call i of a bundle write that lost the race at key w, or at none. */
  ghost predicate IsCall(call: BundleCall, c: Call, w: nat, i: nat)
    requires w <= |call.keys|
  {
    var n := |call.keys|;
    if i < n then IsScan(c, call.profile, call.keys[i])
    else if i < 2 * n && i <= n + w then IsWrite(c, call.profile, call.keys[i - n], false)
    else w < n && i <= n + 2 * w && IsDelete(c, call.profile, call.keys[i - n - w - 1])
  }

  lemma CallPlays(call: BundleCall, c: Call, w: nat, i: nat)
    requires 0 < |call.keys| && w <= |call.keys| && IsCall(call, c, w, i)
    ensures Plays1(c, w < |call.keys| && i == |call.keys| + w, ProcAt(call, w, i), ProcAt(call, w, i + 1))
  {
    hide ItemKey;
  }

  lemma WrittenPlays(call: BundleCall, calls: seq<Call>, w: nat) returns (there: seq<bool>, procs: seq<Proc>)
    requires var n := |call.keys|; 0 < n && w <= n && |calls| == if w == n then 2 * n else n + 2 * w + 1
    requires forall i :: 0 <= i < |calls| ==> IsCall(call, calls[i], w, i)
    ensures |there| == |calls| && Plays(call, calls, there, procs) && procs[|calls|].phase == Done(w == |call.keys|)
    ensures forall i :: 0 <= i < |calls| ==> (there[i] <==> w < |call.keys| && i == |call.keys| + w)
  {
    hide IsCall, Plays1;
    var n := |call.keys|;
    there := seq(|calls|, i => w < n && i == n + w);
    procs := seq(|calls| + 1, (i: nat) => ProcAt(call, w, i));
    forall i | 0 <= i < |calls| ensures Plays1(calls[i], there[i], procs[i], procs[i + 1]) {
      CallPlays(call, calls[i], w, i);
    }
  }

  ghost predicate SomeThere(call: BundleCall, m: Contents, i: nat) {
    exists j: nat :: j < i && j < |call.keys| && call.Item(j) in m
  }

  lemma ConflictPlays(call: BundleCall, calls: seq<Call>, m: Contents)
    returns (there: seq<bool>, procs: seq<Proc>)
    requires 0 < |call.keys| == |calls| && SomeThere(call, m, |calls|)
    requires forall i :: 0 <= i < |call.keys| ==> IsScan(calls[i], call.profile, call.keys[i])
    ensures |there| == |calls| && Plays(call, calls, there, procs) && procs[|calls|].phase == Done(false)
    ensures forall i :: 0 <= i < |calls| ==> (there[i] <==> calls[i].itemKey in m)
  {
    var n := |call.keys|;
    there := seq(n, i requires 0 <= i < n => call.Item(i) in m);
    procs := seq(n + 1, (i: nat) => Proc(call, if i < n then Scanning(i, SomeThere(call, m, i)) else Done(false), 0));
    forall i | 0 <= i < n
      ensures Plays1(calls[i], there[i], procs[i], procs[i + 1]) && calls[i].itemKey == call.Item(i)
    {
      assert IsScan(calls[i], call.profile, call.keys[i]);
      assert SomeThere(call, m, i + 1) <==> SomeThere(call, m, i) || there[i];
    }
  }

  lemma SuccessCalls(call: BundleCall, calls: seq<Call>, written: seq<string>)
    requires call.Valid() && Enumerates(written, call.kv.Keys)
    requires ReadsThenWrites(calls, |calls|, call.profile, written, false)
    requires Scanned(calls, |calls| - |written|, call.profile, call.kv.Keys, false)
    ensures |calls| == 2 * |call.keys|
    ensures forall i :: 0 <= i < |calls| ==> IsCall(call, calls[i], |call.keys|, i)
  {
    hide IsScan, IsWrite, Ascending;
    var keys :| Enumerates(keys, call.kv.Keys) && ScannedBy(calls, |calls| - |written|, call.profile, keys, false);
    EnumerationUnique(keys, call.keys, call.kv.Keys);
    EnumerationUnique(written, call.keys, call.kv.Keys);
    var n := |call.keys|;
    forall i | n <= i < 2 * n ensures IsWrite(calls[i], call.profile, call.keys[i - n], false) {
      assert IsWrite(calls[|calls| - n + (i - n)], call.profile, written[i - n], false);
    }
  }

  /** The forward calls of a lost race: every scan, and the writes up to the failing key. */
  lemma ForwardCalls(call: BundleCall, calls: seq<Call>, w: nat)
    requires call.Valid() && w < |call.keys| && ForwardTried(calls, call.profile, call.kv, false, call.keys[w])
    requires ScannedBefore(calls, call.profile, call.kv, false, call.keys[w])
    ensures |call.keys| + w < |calls| && FirstFault(calls, |call.keys| + w)
    ensures forall i :: 0 <= i <= |call.keys| + w ==> IsCall(call, calls[i], w, i)
  {
    hide IsCall, ReadsThenWrites, ScannedBy, Enumerates, UpTo;
    var m, tried :| FirstFault(calls, m) && Enumerates(tried, UpTo(call.kv, call.keys[w]))
      && ReadsThenWrites(calls, m + 1, call.profile, tried, false);
    var m', tried' :| FirstFault(calls, m') && Enumerates(tried', UpTo(call.kv, call.keys[w]))
      && Scanned(calls, m' + 1 - |tried'|, call.profile, call.kv.Keys, false);
    PrefixUpTo(call.keys, call.kv, w);
    EnumerationUnique(tried, call.keys[..w + 1], UpTo(call.kv, call.keys[w]));
    EnumerationUnique(tried', call.keys[..w + 1], UpTo(call.kv, call.keys[w]));
    assert m == m';
    var keys :| Enumerates(keys, call.kv.Keys) && ScannedBy(calls, m + 1 - |tried|, call.profile, keys, false);
    EnumerationUnique(keys, call.keys, call.kv.Keys);
    ForwardAt(call, calls, w, m);
  }

  lemma ForwardAt(call: BundleCall, calls: seq<Call>, w: nat, m: int)
    requires w < |call.keys| && ReadsThenWrites(calls, m + 1, call.profile, call.keys[..w + 1], false)
    requires ScannedBy(calls, m - w, call.profile, call.keys, false)
    ensures m == |call.keys| + w < |calls|
    ensures forall i :: 0 <= i <= |call.keys| + w ==> IsCall(call, calls[i], w, i)
  {
    hide IsScan, IsWrite;
    var n := |call.keys|;
    forall i | n <= i <= n + w ensures IsWrite(calls[i], call.profile, call.keys[i - n], false) {
      assert IsWrite(calls[n + (i - n)], call.profile, call.keys[..w + 1][i - n], false);
    }
  }

  /** The calls of its rollback: a delete of every key written before. */
  lemma UndoCalls(call: BundleCall, calls: seq<Call>, w: nat, a: Contents, cause: Error, failed: seq<string>)
    requires call.Valid() && w < |call.keys| && |call.keys| + w < |calls| && FirstFault(calls, |call.keys| + w)
    requires Existing(a, call.profile, call.kv.Keys) == {} && cause.AlreadyExists?
    requires UndoAttempted(calls, a, call.profile, call.kv, false, call.keys[w], cause, failed)
    ensures |calls| == |call.keys| + 2 * w + 1
    ensures forall i :: |call.keys| + w < i < |calls| ==> IsCall(call, calls[i], w, i)
  {
    hide IsCall, UndoneAfter, Enumerates, ToUndo, Existing, FirstFault;
    var restore := Existing(a, call.profile, call.kv.Keys);
    var undo :| Enumerates(undo, ToUndo(call.kv, call.keys[w], true))
      && UndoneAfter(calls, call.profile, call.keys[w], false, cause, undo, restore, failed);
    UndoneKeys(call.keys, call.kv, w, true);
    PrefixEnumerates(call.keys, call.kv.Keys, w);
    EnumerationUnique(undo, call.keys[..w], ToUndo(call.kv, call.keys[w], true));
    UndoAt(call, calls, w, cause, failed);
  }

  lemma UndoAt(call: BundleCall, calls: seq<Call>, w: nat, cause: Error, failed: seq<string>)
    requires w < |call.keys| && FirstFault(calls, |call.keys| + w)
    requires UndoneAfter(calls, call.profile, call.keys[w], false, cause, call.keys[..w], {}, failed)
    ensures |calls| == |call.keys| + 2 * w + 1
    ensures forall i :: |call.keys| + w < i < |calls| ==> IsCall(call, calls[i], w, i)
  {
    hide ItemKey, Describes;
    var n, m := |call.keys|, |calls| - w - 1;
    SameFirstFault(calls, m, n + w);
    forall i | n + w < i < |calls| ensures IsDelete(calls[i], call.profile, call.keys[i - n - w - 1]) {
      var j := i - m - 1;
      assert Attempt(calls[m + 1..][j], call.profile, call.keys[..w][j], {}, failed);
    }
  }

  lemma PrefixEnumerates(keys: seq<string>, all: set<string>, w: nat)
    requires Enumerates(keys, all) && w <= |keys|
    ensures Enumerates(keys[..w], Members(keys[..w]))
  {}

  lemma SameFirstFault(calls: seq<Call>, m: nat, n: nat)
    requires m < |calls| && NoFault(calls[..m]) && calls[m].fault && FirstFault(calls, n)
    ensures m == n
  {
    forall i | 0 <= i < m ensures !calls[i].fault { assert calls[..m][i] in calls[..m]; }
  }

  lemma ConflictCalls(call: BundleCall, calls: seq<Call>, a: Contents)
    returns (there: seq<bool>, procs: seq<Proc>)
    requires call.Valid() && call.keys != [] && NoWrites(calls)
    requires Existing(a, call.profile, call.kv.Keys) != {}
    requires Scanned(calls, |calls|, call.profile, call.kv.Keys, false)
    ensures Plays(call, calls, there, procs) && procs[|calls|].phase == Done(false)
    ensures |there| == |calls|
    ensures forall i :: 0 <= i < |calls| ==> !calls[i].kind.SetCall? && (there[i] <==> calls[i].itemKey in a)
  {
    hide IsScan, Ascending, Plays, ItemKey;
    var keys :| Enumerates(keys, call.kv.Keys) && ScannedBy(calls, |calls|, call.profile, keys, false);
    EnumerationUnique(keys, call.keys, call.kv.Keys);
    var k :| k in Existing(a, call.profile, call.kv.Keys);
    var j := IndexOf(keys, k);
    assert call.Item(j) in a;
    there, procs := ConflictPlays(call, calls, a);
    forall i | 0 <= i < |calls| ensures !calls[i].kind.SetCall? { assert calls[i] in calls; }
  }

  lemma IndexOf(keys: seq<string>, k: string) returns (i: nat)
    requires k in keys
    ensures i < |keys| && keys[i] == k
  {
    i :| 0 <= i < |keys| && keys[i] == k;
  }

  lemma KeysOfPairs(kv: map<string, string>, keys: seq<string>)
    requires kv != map[] && Enumerates(keys, kv.Keys)
    ensures keys != []
  {
    assert kv.Keys == {} ==> kv == map[];
    var k :| k in kv.Keys;
    assert k in keys;
  }

  /** What the process found is what the calls met. */
  lemma AnswersFit(call: BundleCall, calls: seq<Call>, w: nat, there: seq<bool>, a: Contents)
    requires call.Valid() && w <= |call.keys| && |there| == |calls|
    requires forall i :: 0 <= i < |calls| ==> IsCall(call, calls[i], w, i)
    requires forall i :: 0 <= i < |calls| ==> (there[i] <==> w < |call.keys| && i == |call.keys| + w)
    requires if w < |call.keys| then FirstFault(calls, |call.keys| + w) else NoFault(calls)
    requires Existing(a, call.profile, call.kv.Keys) == {}
    ensures forall i :: 0 <= i < |calls| && calls[i].kind.SetCall? ==> (there[i] <==> calls[i].fault)
    ensures forall i :: 0 <= i < |calls| && calls[i].kind == ExistsCall ==> (there[i] <==> calls[i].itemKey in a)
  {
    hide ItemKey;
    forall i | 0 <= i < |calls| && calls[i].kind.SetCall? ensures there[i] <==> calls[i].fault {
      assert IsCall(call, calls[i], w, i) && calls[i] in calls;
    }
    forall i | 0 <= i < |calls| && calls[i].kind == ExistsCall ensures there[i] <==> calls[i].itemKey in a {
      assert IsCall(call, calls[i], w, i);
      assert call.keys[i] in call.keys;
      assert call.keys[i] in Existing(a, call.profile, call.kv.Keys) <==> calls[i].itemKey in a;
    }
  }

  /** What the code does is what a process of a race does, call by call: scan every target, then
      write in order until a write meets a racer, then delete what was written. It finds a racer
      exactly where the code's write failed, and it ends as the code does. */
  lemma CodeIsProc(keeps: bool, calls: seq<Call>, a: Contents, b: Contents, profile: string, kv: map<string, string>,
                   keys: seq<string>, res: Result, err: Option<BundleError>)
    returns (there: seq<bool>, procs: seq<Proc>)
    requires kv != map[] && Enumerates(keys, kv.Keys)
    requires ValidBundleOutcome(keeps, calls, a, b, profile, kv, false, res, err)
    requires TargetsScanned(calls, profile, kv, false, res, err)
    requires err.None? || err.value.Conflict? || (err.value.WriteFailed? && err.value.cause.AlreadyExists?)
    ensures Plays(BundleCall(profile, kv, keys), calls, there, procs)
    ensures procs[|calls|].phase == Done(err.None?)
    ensures forall i :: 0 <= i < |calls| && calls[i].kind.SetCall? ==> (there[i] <==> calls[i].fault)
    ensures forall i :: 0 <= i < |calls| && calls[i].kind == ExistsCall ==> (there[i] <==> calls[i].itemKey in a)
  {
    hide Plays1, Plays, ItemKey, IsCall, FirstFault, ForwardTried;
    hide ScannedBefore, UndoAttempted, Scanned, ReadsThenWrites, LostHold;
    var call := BundleCall(profile, kv, keys);
    assert keys != [] by { KeysOfPairs(kv, keys); }
    if err.None? {
      SuccessCalls(call, calls, res.written);
      there, procs := WrittenPlays(call, calls, |keys|);
      AnswersFit(call, calls, |keys|, there, a);
    } else if err.value.Conflict? {
      there, procs := ConflictCalls(call, calls, a);
    } else {
      var w := IndexOf(keys, err.value.key);
      ForwardCalls(call, calls, w);
      UndoCalls(call, calls, w, a, err.value.cause, err.value.rollbackFailed);
      there, procs := WrittenPlays(call, calls, w);
      AnswersFit(call, calls, w, there, a);
    }
  }
}
