/** The service-scoped store over either backend: single-key operations (credstore/store.go) and
    bundle operations (credstore/bundle.go), each a step of the abstract map of module History. */
module Store {
  import opened Text
  import Ref
  import opened Items
  import opened Backend
  import opened Bundle
  import opened History

  ghost predicate FirstKeyError(keys: seq<string>, i: nat, error: Error)
    requires i < |keys|
  {
    KeyError(keys[i]) == Some(error) && forall j :: 0 <= j < i ==> KeyError(keys[j]).None?
  }

  /** Copies, checks, deduplicates and sorts the caller's allowlist; an empty list means that only
      the syntax of keys is checked. */
  method NormalizeAllowedKeys(keys: seq<string>) returns (r: Fetched<Allowlist>)
    ensures keys == [] ==> r == Got(Allowlist(None, []))
    ensures keys != [] && (forall i :: 0 <= i < |keys| ==> KeyError(keys[i]).None?) ==>
      && r.Got? && r.value.allowed == Some(set k | k in keys)
      && Enumerates(r.value.listed, set k | k in keys)
    ensures r.Failed? ==> exists i :: 0 <= i < |keys| && FirstKeyError(keys, i, r.error)
    ensures r.Failed? <==> exists i :: 0 <= i < |keys| && KeyError(keys[i]).Some?
  {
    if |keys| == 0 {
      return Got(Allowlist(None, []));
    }
    var allowed: set<string> := {};
    for i := 0 to |keys|
      invariant allowed == set k | k in keys[..i]
      invariant forall j :: 0 <= j < i ==> KeyError(keys[j]).None?
    {
      var k := keys[i];
      if k == "" {
        var error := InvalidRef(Ref.RefError(Ref.Empty, "key", ""));
        assert FirstKeyError(keys, i, error);
        return Failed(error);
      }
      if !Ref.ValidSegment(k) {
        var error := InvalidRef(Ref.RefError(Ref.InvalidChar, "key", k));
        assert FirstKeyError(keys, i, error);
        return Failed(error);
      }
      assert keys[..i + 1] == keys[..i] + [k];
      allowed := allowed + {k};
    }
    assert keys[..|keys|] == keys;
    var listed := ListKeys(map k | k in allowed :: ());
    listed := SortStrings(listed);
    return Got(Allowlist(Some(allowed), listed));
  }

  // ---------- the phases of SetBundle ----------

  method SortedKeys(kv: map<string, string>) returns (keys: seq<string>)
    ensures Enumerates(keys, kv.Keys)
  {
    keys := ListKeys(kv);
    keys := SortStrings(keys);
  }

  lemma OneMoreCall(log: seq<Call>, calls: seq<Call>, call: Call)
    requires NoFault(calls)
    ensures log + calls + [call] == log + (calls + [call])
    ensures !call.fault ==> NoFault(calls + [call])
    ensures call.fault && call.err.Some? ==> EndsInFault(calls + [call], call.err.value)
    ensures NoWrites(calls) && !call.kind.SetCall? && !call.kind.DeleteCall? ==> NoWrites(calls + [call])
  {
    assert (calls + [call])[..|calls|] == calls;
  }

  lemma MoreCalls(log: seq<Call>, a: seq<Call>, b: seq<Call>)
    requires NoFault(a)
    ensures log + a + b == log + (a + b)
    ensures NoFault(b) ==> NoFault(a + b)
    ensures NoWrites(a) && NoWrites(b) ==> NoWrites(a + b)
    ensures forall e :: EndsInFault(b, e) ==> EndsInFault(a + b, e) && (a + b)[|a + b| - 1] == b[|b| - 1]
  {
    if b != [] { assert (a + b)[..|a + b| - 1] == a + b[..|b| - 1]; }
  }

  /** The prior existence of every target, read before any write. */
  method ScanExisting(be: AnyBackend, profile: string, keys: seq<string>)
    returns (existed: set<string>, err: Option<Error>, ghost calls: seq<Call>)
    requires be.Valid()
    modifies be.Repr()
    ensures be.Valid() && be.Stored() == old(be.Stored()) && be.Log() == old(be.Log()) + calls
    ensures NoWrites(calls) && if err.None? then NoFault(calls) else EndsInFault(calls, err.value)
    ensures err.None? ==> forall k :: k in existed <==> k in keys && ItemKey(profile, k) in be.Stored()
    ensures err.None? ==> |calls| == |keys| && ScannedBy(calls, |calls|, profile, keys, false)
  {
    hide AnyBackend.Valid, AnyBackend.Stored, AnyBackend.Log;
    hide NoFault, NoWrites, EndsInFault, ScannedBy;
    ghost var log := be.Log();
    existed, calls := {}, [];
    NoCallsYet();
    NothingScanned(profile, keys);
    for i := 0 to |keys|
      invariant be.Valid() && be.Stored() == old(be.Stored())
      invariant be.Log() == log + calls && NoFault(calls) && NoWrites(calls)
      invariant |calls| == i && ScannedBy(calls, i, profile, keys[..i], false)
      invariant forall k :: k in existed <==> k in keys[..i] && ItemKey(profile, k) in be.Stored()
    {
      var found;
      ghost var call;
      found, call := be.Exists(ItemKey(profile, keys[i]));
      OneMoreCall(log, calls, call);
      OneMoreScan(calls, call, profile, keys, i);
      calls := calls + [call];
      if found.Failed? {
        return existed, Some(found.error), calls;
      }
      if found.value {
        existed := existed + {keys[i]};
      }
      assert keys[..i + 1] == keys[..i] + [keys[i]];
    }
    assert keys[..|keys|] == keys;
    return existed, None, calls;
  }

  lemma NothingScanned(profile: string, keys: seq<string>)
    ensures ScannedBy([], 0, profile, keys[..0], false)
  {}

  lemma OneMoreScan(calls: seq<Call>, call: Call, profile: string, keys: seq<string>, i: nat)
    requires i < |keys| && |calls| == i && ScannedBy(calls, i, profile, keys[..i], false)
    requires IsScan(call, profile, keys[i])
    ensures ScannedBy(calls + [call], i + 1, profile, keys[..i + 1], false)
  {
    hide IsScan;
    assert keys[..i + 1] == keys[..i] + [keys[i]];
  }

  /** What is called later does not change what was read first. */
  lemma ScannedFirst(calls: seq<Call>, more: seq<Call>, looked: int, profile: string, keys: seq<string>,
      all: set<string>, overwrite: bool)
    requires ScannedBy(calls, looked, profile, keys, overwrite) && Enumerates(keys, all)
    ensures Scanned(calls + more, looked, profile, all, overwrite)
    ensures ScannedBy(calls + more, looked, profile, keys, overwrite)
    ensures overwrite ==> ScannedBy(calls + more, |calls + more|, profile, keys, overwrite)
  {
    hide IsScan, Enumerates;
    assert ScannedBy(calls + more, looked, profile, keys, overwrite);
  }

  lemma ScannedEither(calls: seq<Call>, profile: string, keys: seq<string>, all: set<string>, overwrite: bool)
    requires |calls| == |keys| && ScannedBy(calls, |calls|, profile, keys, false) && Enumerates(keys, all)
    ensures ScannedBy(calls, |calls|, profile, keys, overwrite)
    ensures Scanned(calls, |calls|, profile, all, overwrite)
  {
    hide IsScan, Enumerates;
  }

  lemma NoCallsYet()
    ensures NoFault([]) && NoWrites([])
  {}

  /** The prior value of every existing target, for an overwriting call. */
  method CaptureSnapshot(be: AnyBackend, profile: string, keys: seq<string>, existed: set<string>)
    returns (snap: map<string, string>, err: Option<Error>, ghost calls: seq<Call>)
    requires be.Valid()
    requires forall k :: k in existed <==> k in keys && ItemKey(profile, k) in be.Stored()
    modifies be.Repr()
    ensures be.Valid() && be.Stored() == old(be.Stored()) && be.Log() == old(be.Log()) + calls
    ensures NoWrites(calls) && if err.None? then NoFault(calls) else EndsInFault(calls, err.value)
    ensures err.None? ==> snap.Keys == existed && SnapshotOf(snap, be.Stored(), profile)
  {
    hide AnyBackend.Valid, AnyBackend.Stored, AnyBackend.Log;
    hide NoFault, NoWrites, EndsInFault;
    ghost var log := be.Log();
    snap, calls := map[], [];
    NoCallsYet();
    for i := 0 to |keys|
      invariant be.Valid() && be.Stored() == old(be.Stored())
      invariant be.Log() == log + calls && NoFault(calls) && NoWrites(calls)
      invariant forall k :: k in snap <==> k in existed && k in keys[..i]
      invariant SnapshotOf(snap, be.Stored(), profile)
    {
      if keys[i] in existed {
        var prior;
        ghost var call;
        prior, call := be.Get(ItemKey(profile, keys[i]));
        OneMoreCall(log, calls, call);
        calls := calls + [call];
        if prior.Failed? {
          return snap, Some(prior.error), calls;
        }
        snap := snap[keys[i] := prior.value];
      }
      assert keys[..i + 1] == keys[..i] + [keys[i]];
    }
    assert keys[..|keys|] == keys;
    return snap, None, calls;
  }

  ghost predicate SnapshotOf(snap: map<string, string>, m: Contents, profile: string) {
    forall k :: k in snap ==> ItemKey(profile, k) in m && m[ItemKey(profile, k)] == snap[k]
  }

  /** The first keys, in order, hold their new values and nothing else changed but, perhaps, the
      one key whose write failed. */
  ghost predicate Forward(a: Contents, b: Contents, profile: string, kv: map<string, string>,
                          done: set<string>, loose: set<string>) {
    && done <= kv.Keys
    && AgreeExcept(a, b, ItemKeys(profile, done + loose))
    && forall k :: k in done ==> ItemKey(profile, k) in b && b[ItemKey(profile, k)] == kv[k]
  }

  lemma ForwardSet(a: Contents, b: Contents, c: Contents, profile: string, kv: map<string, string>,
                   done: set<string>, k: string, overwrite: bool, err: Option<Error>)
    requires Forward(a, b, profile, kv, done, {}) && k in kv && k !in done
    requires SetOutcome(b, c, ItemKey(profile, k), kv[k], overwrite, err)
    ensures err.None? ==> Forward(a, c, profile, kv, done + {k}, {})
    ensures err.Some? && !overwrite && err.value.AlreadyExists? ==> Forward(a, c, profile, kv, done, {})
    ensures err.Some? ==> Forward(a, c, profile, kv, done, {k})
    ensures ItemKey(profile, k) in b <==> ItemKey(profile, k) in a
  {
    assert ItemKeys(profile, done + {}) == ItemKeys(profile, done);
    assert ItemKeys(profile, done + {k}) == ItemKeys(profile, done) + {ItemKey(profile, k)};
    assert done + {k} + {} == done + {k};
    ItemKeyMember(profile, k, done);
    assert SameAt(a, b, ItemKey(profile, k));
    assert AgreeExcept(b, c, {ItemKey(profile, k)});
    forall d | d in done ensures SameAt(b, c, ItemKey(profile, d)) {
      SameProfileInjective(profile, d, k);
      assert ItemKey(profile, d) !in {ItemKey(profile, k)};
    }
    forall x | x !in ItemKeys(profile, done + {k}) ensures SameAt(a, c, x) {
      assert SameAt(a, b, x) && SameAt(b, c, x);
    }
  }

  lemma ForwardNothing(a: Contents, profile: string, kv: map<string, string>)
    ensures Forward(a, a, profile, kv, {}, {})
  {}

  lemma ExistingMember(m: Contents, profile: string, keys: set<string>, k: string)
    ensures k in Existing(m, profile, keys) <==> k in keys && ItemKey(profile, k) in m
  {}

  /** The write of one key; the backend refuses it only if a fault makes it. */
  method WriteOne(be: AnyBackend, profile: string, k: string, kv: map<string, string>, overwrite: bool,
                  ghost before: Contents, ghost done: set<string>)
    returns (err: Option<Error>, ghost call: Call)
    requires be.Valid() && k in kv && k !in done
    requires Forward(before, be.Stored(), profile, kv, done, {})
    requires overwrite || Existing(before, profile, kv.Keys) == {}
    modifies be.Repr()
    ensures be.Valid() && be.Log() == old(be.Log()) + [call]
    ensures Describes(call, SetCall(overwrite), ItemKey(profile, k), err) && (call.fault <==> err.Some?)
    ensures err.None? ==> Forward(before, be.Stored(), profile, kv, done + {k}, {})
    ensures err.Some? ==>
      Forward(before, be.Stored(), profile, kv, done, if !overwrite && err.value.AlreadyExists? then {} else {k})
    ensures be.Keeps() && err.Some? ==> be.Stored() == old(be.Stored())
  {
    hide AnyBackend.Valid, AnyBackend.Stored, AnyBackend.Log;
    hide Forward, SetOutcome, Existing, ItemKey;
    ghost var now := be.Stored();
    err, call := be.Set(ItemKey(profile, k), kv[k], overwrite);
    ForwardSet(before, now, be.Stored(), profile, kv, done, k, overwrite, err);
    ExistingMember(before, profile, kv.Keys, k);
  }

  method ForwardWrite(be: AnyBackend, profile: string, keys: seq<string>, kv: map<string, string>, overwrite: bool)
    returns (written: seq<string>, failure: Option<Error>, ghost calls: seq<Call>)
    requires be.Valid() && Enumerates(keys, kv.Keys)
    requires overwrite || Existing(be.Stored(), profile, kv.Keys) == {}
    modifies be.Repr()
    ensures be.Valid() && be.Log() == old(be.Log()) + calls
    ensures |written| <= |keys| && written == keys[..|written|]
    ensures failure.None? ==> written == keys && Forward(old(be.Stored()), be.Stored(), profile, kv, kv.Keys, {})
    ensures failure.Some? ==> |written| < |keys|
    ensures failure.Some? ==>
      Forward(old(be.Stored()), be.Stored(), profile, kv, set k | k in written,
        if !overwrite && failure.value.AlreadyExists? then {} else {keys[|written|]})
    ensures be.Keeps() && failure.Some? ==>
      Forward(old(be.Stored()), be.Stored(), profile, kv, set k | k in written, {})
    ensures |calls| == |written| + if failure.None? then 0 else 1
    ensures Writes(calls, profile, keys[..|calls|], overwrite)
    ensures failure.None? ==> NoFault(calls)
    ensures failure.Some? ==> FailedWrite(calls, profile, keys[|written|], overwrite, failure.value)
  {
    hide AnyBackend.Valid, AnyBackend.Stored, AnyBackend.Log;
    hide Forward, Existing, NoFault, NoWrites, EndsInFault, Less, ItemKey, Writes, Ascending;
    ghost var before, log := be.Stored(), be.Log();
    ForwardNothing(before, profile, kv);
    NoCallsYet();
    written, calls := [], [];
    NoWritesYet(profile, keys, overwrite);
    assert (set k | k in written) == {};
    for i := 0 to |keys|
      invariant be.Valid() && written == keys[..i]
      invariant be.Log() == log + calls && NoFault(calls)
      invariant |calls| == i && Writes(calls, profile, keys[..i], overwrite)
      invariant Forward(before, be.Stored(), profile, kv, set k | k in written, {})
    {
      ghost var done := set k | k in written;
      LaterNotIn(keys, i);
      assert keys[i] in kv;
      var err;
      ghost var call;
      err, call := WriteOne(be, profile, keys[i], kv, overwrite, before, done);
      OneMoreCall(log, calls, call);
      OneMoreWrite(calls, call, profile, keys, i, overwrite);
      calls := calls + [call];
      if err.Some? {
        return written, err, calls;
      }
      written := written + [keys[i]];
      assert (set k | k in written) == done + {keys[i]};
    }
    assert written == keys && (set k | k in written) == kv.Keys;
    return written, None, calls;
  }

  /** One write for each key, in order. */
  ghost predicate Writes(calls: seq<Call>, profile: string, keys: seq<string>, overwrite: bool) {
    |calls| == |keys| && forall i :: 0 <= i < |keys| ==> IsWrite(calls[i], profile, keys[i], overwrite)
  }

  lemma NoWritesYet(profile: string, keys: seq<string>, overwrite: bool)
    ensures Writes([], profile, keys[..0], overwrite)
  {}

  lemma OneMoreWrite(calls: seq<Call>, call: Call, profile: string, keys: seq<string>, i: nat, overwrite: bool)
    requires i < |keys| && Writes(calls, profile, keys[..i], overwrite)
    requires call.kind == SetCall(overwrite) && call.itemKey == ItemKey(profile, keys[i])
    ensures Writes(calls + [call], profile, keys[..i + 1], overwrite)
  {
    hide ItemKey;
    assert keys[..i + 1] == keys[..i] + [keys[i]];
  }

  lemma ReadThenWritten(first: seq<Call>, writes: seq<Call>, profile: string, keys: seq<string>, overwrite: bool)
    requires NoWrites(first) && Writes(writes, profile, keys, overwrite)
    ensures ReadsThenWrites(first + writes, |first + writes|, profile, keys, overwrite)
  {
    hide IsWrite;
    var all := first + writes;
    forall i | 0 <= i < |keys| ensures IsWrite(all[|all| - |keys| + i], profile, keys[i], overwrite) {
      assert all[|first| + i] == writes[i];
    }
  }

  /** The write of this key failed, and no call before it. */
  ghost predicate FailedWrite(calls: seq<Call>, profile: string, key: string, overwrite: bool, cause: Error) {
    EndsInFault(calls, cause) && Describes(calls[|calls| - 1], SetCall(overwrite), ItemKey(profile, key), Some(cause))
  }

  // ---------- rollback ----------

  lemma EnumeratesAppend(s: seq<string>, elements: set<string>, x: string)
    requires Enumerates(s, elements) && forall e :: e in elements ==> Less(e, x)
    ensures Enumerates(s + [x], elements + {x})
  {}

  /** Where each of the keys rolled back so far went. */
  ghost predicate Dispositions(done: set<string>, snapped: set<string>,
                          restored: seq<string>, absent: seq<string>, failed: seq<string>) {
    var lost := Members(failed);
    && lost <= done
    && Enumerates(failed, lost)
    && Enumerates(restored, (done - lost) * snapped)
    && Enumerates(absent, done - lost - snapped)
  }

  lemma SortNext(done: set<string>, snapped: set<string>,
                 restored: seq<string>, absent: seq<string>, failed: seq<string>, k: string)
    requires Dispositions(done, snapped, restored, absent, failed)
    requires forall d :: d in done ==> Less(d, k)
    ensures Dispositions(done + {k}, snapped, restored, absent, failed + [k])
    ensures k in snapped ==> Dispositions(done + {k}, snapped, restored + [k], absent, failed)
    ensures k !in snapped ==> Dispositions(done + {k}, snapped, restored, absent + [k], failed)
  {
    LessTrichotomy(k, k);
    var lost := Members(failed);
    assert k !in done && k !in lost;
    EnumeratesAppend(failed, lost, k);
    assert Members(failed + [k]) == lost + {k};
    assert done + {k} - (lost + {k}) == done - lost;
    if k in snapped {
      EnumeratesAppend(restored, (done - lost) * snapped, k);
      assert (done + {k} - lost) * snapped == (done - lost) * snapped + {k};
      assert done + {k} - lost - snapped == done - lost - snapped;
    } else {
      EnumeratesAppend(absent, done - lost - snapped, k);
      assert done + {k} - lost - snapped == done - lost - snapped + {k};
      assert (done + {k} - lost) * snapped == (done - lost) * snapped;
    }
  }

  /** One key put back: the store agrees with the original everywhere it did, and at that key. */
  lemma PutBack(a: Contents, b: Contents, c: Contents, profile: string, loose: set<string>, k: string)
    requires AgreeExcept(a, b, ItemKeys(profile, loose + {k}))
    requires AgreeExcept(b, c, {ItemKey(profile, k)})
    ensures AgreeExcept(a, c, ItemKeys(profile, loose + {k}))
    ensures SameAt(a, c, ItemKey(profile, k)) ==> AgreeExcept(a, c, ItemKeys(profile, loose))
  {
    assert ItemKeys(profile, loose + {k}) == ItemKeys(profile, loose) + {ItemKey(profile, k)};
    forall x | x !in ItemKeys(profile, loose + {k}) ensures SameAt(a, c, x) {
      assert SameAt(a, b, x) && SameAt(b, c, x);
    }
  }

  /** Undoes the given keys in order, restoring snapshotted values and deleting the rest; a key
      already gone counts as deleted. */
  method RollBack(be: AnyBackend, profile: string, rbKeys: seq<string>, snap: map<string, string>,
      ghost original: Contents)
    returns (restored: seq<string>, absent: seq<string>, failed: seq<string>, ghost calls: seq<Call>)
    requires be.Valid() && Ascending(rbKeys)
    requires forall k :: k in rbKeys ==> (k in snap <==> ItemKey(profile, k) in original)
    requires SnapshotOf(snap, original, profile)
    requires AgreeExcept(original, be.Stored(), ItemKeys(profile, Members(rbKeys)))
    modifies be.Repr()
    ensures be.Valid() && be.Log() == old(be.Log()) + calls
    ensures Attempts(calls, profile, rbKeys, snap.Keys, failed)
    ensures Dispositions(Members(rbKeys), snap.Keys, restored, absent, failed)
    ensures AgreeExcept(original, be.Stored(), ItemKeys(profile, Members(failed)))
    ensures be.Keeps() ==> Unmoved(old(be.Stored()), be.Stored(), profile, Members(failed))
  {
    hide AnyBackend.Valid, AnyBackend.Stored, AnyBackend.Log;
    hide AgreeExcept, Dispositions, ItemKeys, Attempts, SetOutcome, DeleteOutcome, SnapshotOf, Unmoved;
    ghost var start := be.Stored();
    NothingMoved(start, profile, Members(rbKeys));
    restored, absent, failed, calls := [], [], [], [];
    NothingAttempted(profile, snap.Keys);
    NothingSorted(snap.Keys);
    assert Members(rbKeys[..0]) == {} && Members([]) + Members(rbKeys[0..]) == Members(rbKeys);
    for i := 0 to |rbKeys|
      invariant be.Valid() && be.Log() == old(be.Log()) + calls
      invariant Attempts(calls, profile, rbKeys[..i], snap.Keys, failed)
      invariant Dispositions(Members(rbKeys[..i]), snap.Keys, restored, absent, failed)
      invariant AgreeExcept(original, be.Stored(), ItemKeys(profile, Members(failed) + Members(rbKeys[i..])))
      invariant be.Keeps() ==> Unmoved(start, be.Stored(), profile, Members(failed) + Members(rbKeys[i..]))
    {
      var k := rbKeys[i];
      ghost var loose := Members(failed) + Members(rbKeys[i + 1..]);
      ghost var now := be.Stored();
      TakeOne(rbKeys, i, failed);
      SortNext(Members(rbKeys[..i]), snap.Keys, restored, absent, failed, k);
      SnapshotValue(snap, original, profile, k);
      ghost var call;
      var ok;
      ok, call := UndoOne(be, profile, k, snap);
      AttemptNext(calls, call, profile, rbKeys, i, snap.Keys, restored, absent, failed);
      PutBack(original, now, be.Stored(), profile, loose, k);
      FailedAreDone(Members(rbKeys[..i]), snap.Keys, restored, absent, failed);
      OneMoved(start, now, be.Stored(), profile, rbKeys, i, failed);
      calls := calls + [call];
      if !ok {
        failed := failed + [k];
        continue;
      }
      if k in snap {
        restored := restored + [k];
      } else {
        absent := absent + [k];
      }
    }
    assert rbKeys[..|rbKeys|] == rbKeys;
    assert Members(failed) + Members(rbKeys[|rbKeys|..]) == Members(failed);
    DispositionsAscend(Members(rbKeys), snap.Keys, restored, absent, failed);
    restored := SortedAgain(restored);
    absent := SortedAgain(absent);
  }

  /** The items of these keys are the same. */
  ghost predicate Unmoved(a: Contents, b: Contents, profile: string, keys: set<string>) {
    forall k :: k in keys ==> SameAt(a, b, ItemKey(profile, k))
  }

  lemma NothingMoved(a: Contents, profile: string, keys: set<string>)
    ensures Unmoved(a, a, profile, keys)
  {}

  /** A change at one key leaves the items of the failed and of the later keys. */
  lemma OneMoved(a: Contents, b: Contents, c: Contents, profile: string, keys: seq<string>, i: nat, failed: seq<string>)
    requires Ascending(keys) && i < |keys| && forall k :: k in failed ==> k in keys[..i]
    requires AgreeExcept(b, c, {ItemKey(profile, keys[i])})
    ensures Unmoved(a, b, profile, Members(failed) + Members(keys[i..])) ==>
      Unmoved(a, c, profile, Members(failed) + Members(keys[i + 1..]))
  {
    hide ItemKey, Less;
    LaterNotIn(keys, i);
    LessTrichotomy(keys[i], keys[i]);
    if Unmoved(a, b, profile, Members(failed) + Members(keys[i..])) {
      forall k | k in Members(failed) + Members(keys[i + 1..]) ensures SameAt(a, c, ItemKey(profile, k)) {
        assert k != keys[i] && k in Members(failed) + Members(keys[i..]);
        SameProfileInjective(profile, k, keys[i]);
        assert SameAt(a, b, ItemKey(profile, k)) && SameAt(b, c, ItemKey(profile, k));
      }
    }
  }

  lemma NothingAttempted(profile: string, restore: set<string>)
    ensures Attempts([], profile, [], restore, [])
  {}

  lemma SnapshotValue(snap: map<string, string>, m: Contents, profile: string, k: string)
    requires SnapshotOf(snap, m, profile)
    ensures k in snap ==> ItemKey(profile, k) in m && m[ItemKey(profile, k)] == snap[k]
  {}

  /** One attempt more: the failed keys so far are earlier ones. */
  lemma AttemptNext(calls: seq<Call>, call: Call, profile: string, keys: seq<string>, i: nat, restore: set<string>,
                    restored: seq<string>, absent: seq<string>, failed: seq<string>)
    requires Ascending(keys) && i < |keys|
    requires Attempts(calls, profile, keys[..i], restore, failed)
    requires Dispositions(Members(keys[..i]), restore, restored, absent, failed)
    requires call.itemKey == ItemKey(profile, keys[i])
    requires call.kind == if keys[i] in restore then SetCall(true) else DeleteCall
    ensures Attempts(calls + [call], profile, keys[..i + 1], restore, if call.fault then failed + [keys[i]] else failed)
  {
    hide ItemKey, Less, Enumerates;
    LaterNotIn(keys, i);
    FailedAreDone(Members(keys[..i]), restore, restored, absent, failed);
    forall j | 0 <= j < i
      ensures Attempt(calls[j], profile, keys[j], restore, if call.fault then failed + [keys[i]] else failed)
    {
      assert Attempt(calls[j], profile, keys[..i][j], restore, failed) && keys[j] in keys[..i];
    }
  }

  lemma FailedAreDone(done: set<string>, snapped: set<string>,
                      restored: seq<string>, absent: seq<string>, failed: seq<string>)
    requires Dispositions(done, snapped, restored, absent, failed)
    ensures forall k :: k in failed ==> k in done
  {}

  /** Restores one snapshotted value, or deletes one new key; a key already gone counts as
      deleted. */
  method UndoOne(be: AnyBackend, profile: string, k: string, snap: map<string, string>)
    returns (ok: bool, ghost call: Call)
    requires be.Valid()
    modifies be.Repr()
    ensures be.Valid() && be.Log() == old(be.Log()) + [call]
    ensures call.itemKey == ItemKey(profile, k) && call.kind == if k in snap then SetCall(true) else DeleteCall
    ensures ok <==> !call.fault
    ensures AgreeExcept(old(be.Stored()), be.Stored(), {ItemKey(profile, k)})
    ensures ok && k in snap ==> ItemKey(profile, k) in be.Stored() && be.Stored()[ItemKey(profile, k)] == snap[k]
    ensures ok && k !in snap ==> ItemKey(profile, k) !in be.Stored()
    ensures be.Keeps() && !ok ==> be.Stored() == old(be.Stored())
  {
    hide AnyBackend.Valid, AnyBackend.Stored, AnyBackend.Log;
    hide AgreeExcept, SetOutcome, DeleteOutcome;
    ghost var now := be.Stored();
    var err;
    if k in snap {
      err, call := be.Set(ItemKey(profile, k), snap[k], true);
      SetChangesOne(now, be.Stored(), ItemKey(profile, k), snap[k], err);
      ok := err.None?;
    } else {
      err, call := be.Delete(ItemKey(profile, k));
      DeleteChangesOne(now, be.Stored(), ItemKey(profile, k), err);
      ok := err.None? || err == Some(NotFound);
    }
  }

  lemma DispositionsAscend(done: set<string>, snapped: set<string>,
                         restored: seq<string>, absent: seq<string>, failed: seq<string>)
    requires Dispositions(done, snapped, restored, absent, failed)
    ensures Ascending(restored) && Ascending(absent) && Ascending(failed)
  {}

  lemma NothingSorted(snapped: set<string>)
    ensures Dispositions({}, snapped, [], [], [])
  {}

  lemma TakeOne(keys: seq<string>, i: nat, failed: seq<string>)
    requires Ascending(keys) && i < |keys|
    ensures Members(keys[..i + 1]) == Members(keys[..i]) + {keys[i]}
    ensures forall d :: d in Members(keys[..i]) ==> Less(d, keys[i])
    ensures Members(failed) + Members(keys[i..]) == Members(failed) + Members(keys[i + 1..]) + {keys[i]}
    ensures Members(failed + [keys[i]]) + Members(keys[i + 1..]) == Members(failed) + Members(keys[i + 1..]) + {keys[i]}
    ensures keys[i] in keys
  {}

  lemma SetChangesOne(a: Contents, b: Contents, itemKey: string, value: string, err: Option<Error>)
    requires SetOutcome(a, b, itemKey, value, true, err)
    ensures AgreeExcept(a, b, {itemKey})
    ensures err.None? ==> itemKey in b && b[itemKey] == value
  {}

  lemma DeleteChangesOne(a: Contents, b: Contents, itemKey: string, err: Option<Error>)
    requires DeleteOutcome(a, b, itemKey, err)
    ensures AgreeExcept(a, b, {itemKey})
    ensures err.None? || err == Some(NotFound) ==> itemKey !in b
  {}

  /** Sorting a list that is sorted already changes nothing. */
  method SortedAgain(s: seq<string>) returns (r: seq<string>)
    requires Ascending(s)
    ensures r == s
  {
    AscendingDistinct(s);
    r := SortStrings(s);
    EnumerationUnique(s, r, Members(s));
  }

  lemma AscendingDistinct(s: seq<string>)
    requires Ascending(s)
    ensures NoDuplicates(s)
  {
    forall i, j | 0 <= i < j < |s| ensures s[i] != s[j] { LessTrichotomy(s[i], s[j]); }
  }

  // ---------- SetBundle after validation ----------

  /** Syntax and allowlist of every key, in order, before any backend call. */
  method ValidateKeys(allowlist: Allowlist, profile: string, keys: seq<string>, ghost all: set<string>)
    returns (err: Option<Error>)
    requires Enumerates(keys, all)
    ensures err.None? ==> AllKeysValid(allowlist, profile, all)
    ensures err.Some? ==>
      exists bad :: FirstBadKey(allowlist, profile, all, bad) && err == WriteKeyError(allowlist, profile, bad)
  {
    hide JoinError, AllowError;
    for i := 0 to |keys|
      invariant forall k :: k in keys[..i] ==> WriteKeyError(allowlist, profile, k).None?
    {
      err := WriteKeyError(allowlist, profile, keys[i]);
      LaterSmaller(keys, all, i);
      if err.Some? {
        assert FirstBadKey(allowlist, profile, all, keys[i]);
        return;
      }
      assert keys[..i + 1] == keys[..i] + [keys[i]];
    }
    assert keys[..|keys|] == keys;
    return None;
  }

  method Conflicts(keys: seq<string>, existed: set<string>) returns (conflicts: seq<string>)
    requires Ascending(keys) && forall k :: k in existed ==> k in keys
    ensures Enumerates(conflicts, existed)
  {
    conflicts := Filter(keys, existed, true);
    assert forall k :: k in conflicts <==> k in existed;
  }

  /** The keys that are, or are not, in a set, in order. */
  method Filter(keys: seq<string>, wanted: set<string>, inside: bool) returns (r: seq<string>)
    requires Ascending(keys)
    ensures Enumerates(r, set k | k in keys && (k in wanted <==> inside))
  {
    r := [];
    assert (set k | k in keys[..0] && (k in wanted <==> inside)) == {};
    for i := 0 to |keys|
      invariant Enumerates(r, set k | k in keys[..i] && (k in wanted <==> inside))
    {
      ghost var before := set k | k in keys[..i] && (k in wanted <==> inside);
      ghost var after := set k | k in keys[..i + 1] && (k in wanted <==> inside);
      LaterNotIn(keys, i);
      assert keys[..i + 1] == keys[..i] + [keys[i]];
      if keys[i] in wanted <==> inside {
        EnumeratesAppend(r, before, keys[i]);
        assert after == before + {keys[i]};
        r := r + [keys[i]];
      } else {
        assert after == before;
      }
    }
    assert keys[..|keys|] == keys;
  }

  lemma ForwardLoose(a: Contents, b: Contents, profile: string, kv: map<string, string>,
                     done: set<string>, loose: set<string>)
    requires Forward(a, b, profile, kv, done, loose)
    ensures AgreeExcept(a, b, ItemKeys(profile, done + loose))
    ensures done == kv.Keys && loose == {} ==> AllWritten(a, b, profile, kv)
  {}

  /** What the write and the rollback left adds up to the documented outcome. */
  lemma RollbackOutcome(a: Contents, b: Contents, profile: string, kv: map<string, string>,
                        keys: seq<string>, w: nat, racer: bool, snapped: set<string>, res: Result)
    requires Enumerates(keys, kv.Keys) && w < |keys|
    requires snapped == Existing(a, profile, kv.Keys)
    requires Dispositions(ToUndo(kv, keys[w], racer), snapped, res.restored, res.absent, res.rollbackFailed)
    requires AgreeExcept(a, b, ItemKeys(profile, Members(res.rollbackFailed)))
    requires Enumerates(res.untouched, kv.Keys - ToUndo(kv, keys[w], racer))
    requires res.written == []
    ensures RolledBack(a, b, profile, kv, res, keys[w], racer)
  {}

  /** Keys this call did not change: those after the failing one, and a racer's key. */
  method Untouched(keys: seq<string>, written: seq<string>, failedKey: string, racer: bool,
      ghost kv: map<string, string>)
    returns (untouched: seq<string>)
    requires Enumerates(keys, kv.Keys)
    requires |written| < |keys| && written == keys[..|written|] && failedKey == keys[|written|]
    ensures Enumerates(untouched, kv.Keys - ToUndo(kv, failedKey, racer))
  {
    UndoneKeys(keys, kv, |written|, racer);
    var attempted := (set k | k in written) + {failedKey};
    untouched := Filter(keys, attempted, false);
    AscendingDistinct(untouched);
    assert failedKey !in untouched;
    if racer {
      untouched := untouched + [failedKey];
    }
    ghost var unsorted := untouched;
    untouched := SortStrings(untouched);
    LaterNotIn(keys, |written|);
    assert (set x | x in unsorted) == kv.Keys - ToUndo(kv, failedKey, racer);
  }

  method WriteBundle(be: AnyBackend, profile: string, keys: seq<string>, kv: map<string, string>, overwrite: bool)
    returns (res: Result, err: Option<BundleError>, ghost calls: seq<Call>)
    requires be.Valid() && Enumerates(keys, kv.Keys)
    modifies be.Repr()
    ensures be.Valid() && be.Log() == old(be.Log()) + calls
    ensures ValidBundleOutcome(be.Keeps(), calls, old(be.Stored()), be.Stored(), profile, kv, overwrite, res, err)
    ensures TargetsScanned(calls, profile, kv, overwrite, res, err)
  {
    hide AnyBackend.Valid, AnyBackend.Stored, AnyBackend.Log;
    hide Forward, RolledBack, Dispositions, AgreeExcept, AllWritten, ToUndo, SnapshotOf;
    hide NoFault, NoWrites, EndsInFault, UndoAttempted, FailedWrite, ReadsThenWrites, ForwardTried, Scanned, ScannedBy;
    ghost var before, log := be.Stored(), be.Log();
    res := EMPTY;
    var existed, scanErr;
    existed, scanErr, calls := ScanExisting(be, profile, keys);
    if scanErr.Some? {
      return res, Some(Plain(scanErr.value)), calls;
    }
    assert existed == Existing(before, profile, kv.Keys);
    ScannedEither(calls, profile, keys, kv.Keys, overwrite);

    var snap: map<string, string> := map[];
    ghost var more: seq<Call>;
    if !overwrite {
      var conflicts := Conflicts(keys, existed);
      if |conflicts| > 0 {
        assert conflicts[0] in existed;
        return res, Some(Conflict(conflicts)), calls;
      }
      NoneExist(conflicts, existed);
      EmptySnapshot(before, profile);
    } else {
      var e;
      snap, e, more := CaptureSnapshot(be, profile, keys, existed);
      MoreCalls(log, calls, more);
      ScannedFirst(calls, more, |calls|, profile, keys, kv.Keys, overwrite);
      calls := calls + more;
      if e.Some? {
        return res, Some(Plain(e.value)), calls;
      }
    }
    assert snap.Keys == Existing(before, profile, kv.Keys);

    res, err, more := WriteOrUndo(be, profile, keys, kv, overwrite, snap, before, calls);
    Regroup(log, calls, more);
    calls := calls + more;
  }

  /** Writes every key in order; after a failure, undoes what was written. */
  method WriteOrUndo(be: AnyBackend, profile: string, keys: seq<string>, kv: map<string, string>, overwrite: bool,
                     snap: map<string, string>, ghost before: Contents, ghost made: seq<Call>)
    returns (res: Result, err: Option<BundleError>, ghost calls: seq<Call>)
    requires be.Valid() && Enumerates(keys, kv.Keys) && be.Stored() == before
    requires snap.Keys == Existing(before, profile, kv.Keys) && SnapshotOf(snap, before, profile)
    requires overwrite || Existing(before, profile, kv.Keys) == {}
    requires NoFault(made) && NoWrites(made) && ScannedBy(made, |made|, profile, keys, overwrite)
    modifies be.Repr()
    ensures be.Valid() && be.Log() == old(be.Log()) + calls
    ensures ValidBundleOutcome(be.Keeps(), made + calls, before, be.Stored(), profile, kv, overwrite, res, err)
    ensures TargetsScanned(made + calls, profile, kv, overwrite, res, err)
  {
    hide AnyBackend.Valid, AnyBackend.Stored, AnyBackend.Log;
    hide Forward, RolledBack, AgreeExcept, AllWritten, ToUndo, SnapshotOf, Existing;
    hide NoFault, NoWrites, EndsInFault, UndoAttempted;
    hide FailedWrite, ValidBundleOutcome, Writes, ReadsThenWrites, ForwardTried;
    hide Enumerates, ItemKeys, ItemKey, Scanned, ScannedBy;
    ghost var log := be.Log();
    var written, failure;
    written, failure, calls := ForwardWrite(be, profile, keys, kv, overwrite);
    MoreCalls(made, made, calls);
    ReadThenWritten(made, calls, profile, keys[..|calls|], overwrite);
    ScannedFirst(made, calls, |made|, profile, keys, kv.Keys, overwrite);
    if failure.None? {
      assert keys[..|keys|] == keys;
      ForwardLoose(before, be.Stored(), profile, kv, kv.Keys, {});
      SuccessOutcome(be.Keeps(), made + calls, before, be.Stored(), profile, kv, overwrite, written);
      return EMPTY.(written := written), None, calls;
    }
    FailedAfter(made, calls, profile, keys[|written|], overwrite, failure.value);
    ghost var all := made + calls;
    ghost var undone;
    res, err, undone := UndoAll(be, profile, keys, kv, overwrite, snap, written, failure.value, before, all);
    Regroup(log, calls, undone);
    Regroup(made, calls, undone);
    calls := calls + undone;
  }

  /** The rollback and its report. */
  method UndoAll(be: AnyBackend, profile: string, keys: seq<string>, kv: map<string, string>, overwrite: bool,
                 snap: map<string, string>, written: seq<string>, cause: Error,
                 ghost before: Contents, ghost made: seq<Call>)
    returns (res: Result, err: Option<BundleError>, ghost calls: seq<Call>)
    requires be.Valid() && Enumerates(keys, kv.Keys)
    requires |written| < |keys| && written == keys[..|written|]
    requires snap.Keys == Existing(before, profile, kv.Keys) && SnapshotOf(snap, before, profile)
    requires overwrite || Existing(before, profile, kv.Keys) == {}
    requires Forward(before, be.Stored(), profile, kv, Members(written),
               if !overwrite && cause.AlreadyExists? then {} else {keys[|written|]})
    requires be.Keeps() ==> Forward(before, be.Stored(), profile, kv, Members(written), {})
    requires FailedWrite(made, profile, keys[|written|], overwrite, cause)
    requires ReadsThenWrites(made, |made|, profile, keys[..|written| + 1], overwrite)
    requires ScannedBy(made, |made| - |written| - 1, profile, keys, overwrite)
    modifies be.Repr()
    ensures be.Valid() && be.Log() == old(be.Log()) + calls
    ensures ValidBundleOutcome(be.Keeps(), made + calls, before, be.Stored(), profile, kv, overwrite, res, err)
    ensures TargetsScanned(made + calls, profile, kv, overwrite, res, err)
  {
    hide AnyBackend.Valid, AnyBackend.Stored, AnyBackend.Log;
    hide Forward, RolledBack, ToUndo, SnapshotOf, Existing, Enumerates;
    hide UndoAttempted, FailedWrite, ValidBundleOutcome, ReadsThenWrites, ForwardTried, ScannedBy;
    var failedKey, rbFailed;
    failedKey, rbFailed, res, calls := UndoBundle(be, profile, keys, kv, overwrite, snap, written, cause, before, made);
    err := Some(WriteFailed(failedKey, cause, rbFailed));
    TriedUpTo(made, calls, profile, kv, keys, |written|, overwrite, cause);
    FailureOutcome(be.Keeps(), made + calls, before, be.Stored(), profile, kv, overwrite, res, failedKey, cause);
  }

  lemma TriedUpTo(made: seq<Call>, undone: seq<Call>, profile: string, kv: map<string, string>, keys: seq<string>,
      w: nat, overwrite: bool, cause: Error)
    requires Enumerates(keys, kv.Keys) && w < |keys| && FailedWrite(made, profile, keys[w], overwrite, cause)
    requires ReadsThenWrites(made, |made|, profile, keys[..w + 1], overwrite)
    requires ScannedBy(made, |made| - w - 1, profile, keys, overwrite)
    ensures ForwardTried(made + undone, profile, kv, overwrite, keys[w])
    ensures ScannedBefore(made + undone, profile, kv, overwrite, keys[w])
  {
    hide IsWrite, Describes, UpTo, Enumerates, ScannedBy, Scanned;
    PrefixUpTo(keys, kv, w);
    ScannedFirst(made, undone, |made| - w - 1, profile, keys, kv.Keys, overwrite);
    var all, n := made + undone, |made| - 1;
    forall i | 0 <= i < n ensures !all[i].fault {
      assert made[..n][i] in made[..n];
    }
    assert FirstFault(all, n);
    assert ReadsThenWrites(all, n + 1, profile, keys[..w + 1], overwrite);
  }

  lemma SuccessOutcome(keeps: bool, calls: seq<Call>, a: Contents, b: Contents, profile: string,
      kv: map<string, string>, overwrite: bool, written: seq<string>)
    requires NoFault(calls) && (overwrite || Existing(a, profile, kv.Keys) == {})
    requires Enumerates(written, kv.Keys) && AllWritten(a, b, profile, kv)
    requires ReadsThenWrites(calls, |calls|, profile, written, overwrite)
    ensures ValidBundleOutcome(keeps, calls, a, b, profile, kv, overwrite, EMPTY.(written := written), None)
  {}

  lemma FailureOutcome(keeps: bool, calls: seq<Call>, a: Contents, b: Contents, profile: string,
      kv: map<string, string>, overwrite: bool, res: Result, failedKey: string, cause: Error)
    requires overwrite || Existing(a, profile, kv.Keys) == {}
    requires RolledBack(a, b, profile, kv, res, failedKey, !overwrite && cause.AlreadyExists?)
    requires keeps ==> LostHold(a, b, profile, kv, failedKey, res.rollbackFailed)
    requires ForwardTried(calls, profile, kv, overwrite, failedKey)
    requires UndoAttempted(calls, a, profile, kv, overwrite, failedKey, cause, res.rollbackFailed)
    ensures var err := Some(WriteFailed(failedKey, cause, res.rollbackFailed));
      ValidBundleOutcome(keeps, calls, a, b, profile, kv, overwrite, res, err)
  {
    hide ForwardTried, UndoAttempted, RolledBack, LostHold;
  }

  lemma FailedAfter(a: seq<Call>, b: seq<Call>, profile: string, key: string, overwrite: bool, cause: Error)
    requires NoFault(a) && FailedWrite(b, profile, key, overwrite, cause)
    ensures FailedWrite(a + b, profile, key, overwrite, cause)
  {
    hide NoFault;
    MoreCalls([], a, b);
  }

  /** The written keys and, unless a racer owns it, the failing one, in order. */
  method KeysToUndo(keys: seq<string>, written: seq<string>, failedKey: string, racer: bool,
      ghost kv: map<string, string>)
    returns (rbKeys: seq<string>)
    requires Enumerates(keys, kv.Keys)
    requires |written| < |keys| && written == keys[..|written|] && failedKey == keys[|written|]
    ensures Ascending(rbKeys) && Members(rbKeys) == ToUndo(kv, failedKey, racer)
    ensures forall k :: k in rbKeys ==> k in kv.Keys && (k in written || k == failedKey)
  {
    hide Less;
    UndoneKeys(keys, kv, |written|, racer);
    PrefixAscending(keys, |written|, racer);
    rbKeys := written;
    if !racer {
      rbKeys := rbKeys + [failedKey];
    }
    assert rbKeys == keys[..|written|] + (if racer then [] else [keys[|written|]]);
    rbKeys := SortedAgain(rbKeys);
  }

  /** Rolls back after the write of keys[|written|] failed. Only a no-overwrite AlreadyExists means
      that a racer owns that key; any other failure may have changed it. */
  method UndoBundle(be: AnyBackend, profile: string, keys: seq<string>, kv: map<string, string>, overwrite: bool,
                    snap: map<string, string>, written: seq<string>, cause: Error,
                    ghost before: Contents, ghost made: seq<Call>)
    returns (failedKey: string, rbFailed: seq<string>, res: Result, ghost calls: seq<Call>)
    requires be.Valid() && Enumerates(keys, kv.Keys)
    requires |written| < |keys| && written == keys[..|written|]
    requires snap.Keys == Existing(before, profile, kv.Keys) && SnapshotOf(snap, before, profile)
    requires Forward(before, be.Stored(), profile, kv, Members(written),
               if !overwrite && cause.AlreadyExists? then {} else {keys[|written|]})
    requires be.Keeps() ==> Forward(before, be.Stored(), profile, kv, Members(written), {})
    requires FailedWrite(made, profile, keys[|written|], overwrite, cause)
    modifies be.Repr()
    ensures be.Valid() && be.Log() == old(be.Log()) + calls
    ensures failedKey == keys[|written|] && rbFailed == res.rollbackFailed
    ensures RolledBack(before, be.Stored(), profile, kv, res, failedKey, !overwrite && cause.AlreadyExists?)
    ensures UndoAttempted(made + calls, before, profile, kv, overwrite, failedKey, cause, rbFailed)
    ensures be.Keeps() ==> LostHold(before, be.Stored(), profile, kv, failedKey, rbFailed)
  {
    hide AnyBackend.Valid, AnyBackend.Stored, AnyBackend.Log;
    hide Forward, RolledBack, Dispositions, AgreeExcept, ToUndo;
    hide SnapshotOf, Existing, Attempts, FailedWrite, UndoAttempted;
    hide LostHold, Unmoved, ItemKeys, ItemKey, Less, Enumerates, Members;
    failedKey := keys[|written|];
    var racer := !overwrite && cause.AlreadyExists?;
    ForwardLoose(before, be.Stored(), profile, kv, Members(written), if racer then {} else {failedKey});
    UndoneKeys(keys, kv, |written|, racer);
    var rbKeys := KeysToUndo(keys, written, failedKey, racer, kv);
    SnapshotCovers(before, profile, kv.Keys, snap, rbKeys);
    ghost var start := be.Stored();
    var restored, absent;
    restored, absent, rbFailed, calls := RollBack(be, profile, rbKeys, snap, before);
    var untouched := Untouched(keys, written, failedKey, racer, kv);
    res := Result([], restored, absent, untouched, rbFailed);
    RollbackOutcome(before, be.Stored(), profile, kv, keys, |written|, racer, snap.Keys, res);
    UndoMade(made, calls, before, profile, kv, overwrite, failedKey, cause, rbKeys, rbFailed);
    if be.Keeps() {
      FailedAreUndone(rbKeys, snap.Keys, restored, absent, rbFailed);
      LostAreUnmoved(before, start, be.Stored(), profile, keys, kv, |written|, rbFailed);
    }
  }

  lemma FailedAreUndone(rbKeys: seq<string>, snapped: set<string>,
                        restored: seq<string>, absent: seq<string>, failed: seq<string>)
    requires Dispositions(Members(rbKeys), snapped, restored, absent, failed)
    ensures forall k :: k in failed ==> k in rbKeys
  {}

  lemma LostAreUnmoved(a: Contents, b: Contents, c: Contents, profile: string, keys: seq<string>,
                       kv: map<string, string>, w: nat, failed: seq<string>)
    requires Enumerates(keys, kv.Keys) && w < |keys|
    requires Forward(a, b, profile, kv, Members(keys[..w]), {})
    requires Unmoved(b, c, profile, Members(failed))
    requires forall k :: k in failed ==> k in keys[..w] || k == keys[w]
    ensures LostHold(a, c, profile, kv, keys[w], failed)
  {
    hide ItemKey, Less;
    LaterNotIn(keys, w);
    assert Members(keys[..w]) + {} == Members(keys[..w]);
    forall k | k in failed ensures k in kv && LostHolds(a, c, ItemKey(profile, k), kv[k], k == keys[w]) {
      assert k in Members(failed) && SameAt(b, c, ItemKey(profile, k));
      ItemKeyMember(profile, k, Members(keys[..w]));
    }
  }

  lemma UndoMade(made: seq<Call>, calls: seq<Call>, a: Contents, profile: string, kv: map<string, string>,
      overwrite: bool, failedKey: string, cause: Error, undo: seq<string>, failed: seq<string>)
    requires FailedWrite(made, profile, failedKey, overwrite, cause)
    requires Ascending(undo) && Members(undo) == ToUndo(kv, failedKey, !overwrite && cause.AlreadyExists?)
    requires Attempts(calls, profile, undo, Existing(a, profile, kv.Keys), failed)
    ensures UndoAttempted(made + calls, a, profile, kv, overwrite, failedKey, cause, failed)
  {
    hide Existing, ToUndo, NoFault, ItemKey, Less;
    AttemptsLength(calls, profile, undo, Existing(a, profile, kv.Keys), failed);
    var all, w := made + calls, |made| - 1;
    assert all[..w] == made[..w] && all[w + 1..] == calls && all[w] == made[w];
    UndoneFrom(all, w, profile, failedKey, overwrite, cause, undo, Existing(a, profile, kv.Keys), failed);
    assert Enumerates(undo, Members(undo));
  }

  lemma AttemptsLength(calls: seq<Call>, profile: string, keys: seq<string>, restore: set<string>, failed: seq<string>)
    requires Attempts(calls, profile, keys, restore, failed)
    ensures |calls| == |keys|
  {}

  lemma UndoneFrom(calls: seq<Call>, w: nat, profile: string, failedKey: string, overwrite: bool, cause: Error,
                   undo: seq<string>, restore: set<string>, failed: seq<string>)
    requires w + 1 + |undo| == |calls| && NoFault(calls[..w]) && calls[w].fault
    requires Describes(calls[w], SetCall(overwrite), ItemKey(profile, failedKey), Some(cause))
    requires Attempts(calls[w + 1..], profile, undo, restore, failed)
    ensures UndoneAfter(calls, profile, failedKey, overwrite, cause, undo, restore, failed)
  {}

  lemma SnapshotCovers(m: Contents, profile: string, all: set<string>, snap: map<string, string>, keys: seq<string>)
    requires snap.Keys == Existing(m, profile, all) && forall k :: k in keys ==> k in all
    ensures forall k :: k in keys ==> (k in snap <==> ItemKey(profile, k) in m)
  {}

  /** SetBundle on an open store: everything is validated before the first backend call. */
  method CheckedWrite(be: AnyBackend, allowlist: Allowlist, profile: string, kv: map<string, string>, overwrite: bool)
    returns (res: Result, err: Option<BundleError>, ghost calls: seq<Call>)
    requires be.Valid()
    modifies be.Repr()
    ensures be.Valid() && be.Log() == old(be.Log()) + calls
    ensures var (before, after) := (old(be.Stored()), be.Stored());
      SetBundleOutcome(allowlist, be.Keeps(), calls, before, after, profile, kv, overwrite, res, err)
    ensures calls != [] ==> TargetsScanned(calls, profile, kv, overwrite, res, err)
  {
    hide AnyBackend.Valid, AnyBackend.Stored, AnyBackend.Log, SetBundleOutcome;
    hide ValidBundleOutcome, AllKeysValid, WriteKeyError, FirstBadKey, ProfileError, TargetsScanned, Enumerates;
    ghost var keeps, before := be.Keeps(), be.Stored();
    var e := ProfileError(profile);
    if e.Some? {
      BadProfileOutcome(allowlist, keeps, before, profile, kv, overwrite);
      return EMPTY, Some(Plain(e.value)), [];
    }
    if |kv| == 0 {
      NoKeysOutcome(allowlist, keeps, before, profile, overwrite);
      return EMPTY, None, [];
    }
    var keys := SortedKeys(kv);
    e := ValidateKeys(allowlist, profile, keys, kv.Keys);
    if e.Some? {
      BadKeyOutcome(allowlist, keeps, before, profile, kv, overwrite, e.value);
      return EMPTY, Some(Plain(e.value)), [];
    }
    res, err, calls := WriteBundle(be, profile, keys, kv, overwrite);
    GoodKeysOutcome(allowlist, keeps, calls, before, be.Stored(), profile, kv, overwrite, res, err);
  }

  lemma BadProfileOutcome(allowlist: Allowlist, keeps: bool, m: Contents, profile: string, kv: map<string, string>,
                          overwrite: bool)
    requires ProfileError(profile).Some?
    ensures SetBundleOutcome(allowlist, keeps, [], m, m, profile, kv, overwrite, EMPTY,
              Some(Plain(ProfileError(profile).value)))
  {}

  lemma NoKeysOutcome(allowlist: Allowlist, keeps: bool, m: Contents, profile: string, overwrite: bool)
    requires ProfileError(profile).None?
    ensures SetBundleOutcome(allowlist, keeps, [], m, m, profile, map[], overwrite, EMPTY, None)
  {}

  lemma BadKeyOutcome(allowlist: Allowlist, keeps: bool, m: Contents, profile: string, kv: map<string, string>,
                      overwrite: bool, e: Error)
    requires ProfileError(profile).None? && exists bad ::
      FirstBadKey(allowlist, profile, kv.Keys, bad) && Some(e) == WriteKeyError(allowlist, profile, bad)
    ensures SetBundleOutcome(allowlist, keeps, [], m, m, profile, kv, overwrite, EMPTY, Some(Plain(e)))
  {
    hide WriteKeyError, ValidBundleOutcome;
  }

  lemma GoodKeysOutcome(allowlist: Allowlist, keeps: bool, calls: seq<Call>, a: Contents, b: Contents,
      profile: string, kv: map<string, string>, overwrite: bool, res: Result, err: Option<BundleError>)
    requires ProfileError(profile).None? && kv != map[] && AllKeysValid(allowlist, profile, kv.Keys)
    requires ValidBundleOutcome(keeps, calls, a, b, profile, kv, overwrite, res, err)
    ensures SetBundleOutcome(allowlist, keeps, calls, a, b, profile, kv, overwrite, res, err)
  {
    hide ValidBundleOutcome, AllKeysValid;
  }

  lemma NoneExist(conflicts: seq<string>, existed: set<string>)
    requires Enumerates(conflicts, existed) && |conflicts| == 0
    ensures existed == {}
  {}

  lemma EmptySnapshot(m: Contents, profile: string)
    ensures SnapshotOf(map[], m, profile)
  {}

  lemma PrefixAscending(keys: seq<string>, w: nat, racer: bool)
    requires Ascending(keys) && w < |keys|
    ensures var rb := keys[..w] + (if racer then [] else [keys[w]]);
      && Ascending(rb) && Members(rb) == Members(keys[..w]) + (if racer then {} else {keys[w]})
      && forall k :: k in rb ==> k in keys
    ensures keys[..w] + [keys[w]] == keys[..w + 1]
    ensures racer ==> Ascending(keys[..w])
  {}

  // ---------- listing and deleting ----------

  method BundleBareKeys(be: AnyBackend, profile: string) returns (r: Fetched<seq<string>>, ghost call: Call)
    requires be.Valid()
    modifies be.Repr()
    ensures be.Valid() && be.Stored() == old(be.Stored()) && be.Log() == old(be.Log()) + [call]
    ensures ListStep(r, BareKeys(be.Stored(), profile), [call])
    ensures call.fault <==> r.Failed?
  {
    hide AnyBackend.Valid, AnyBackend.Stored, AnyBackend.Log;
    var all;
    all, call := be.List();
    assert call in [call];
    if all.Failed? {
      return Failed(all.error), call;
    }
    var keys := BareKeysOf(all.value, profile);
    forall k ensures k in keys <==> k in BareKeys(be.Stored(), profile) {
      BareKeyStored(be.Stored(), profile, k);
    }
    return Got(keys), call;
  }

  method BareKeysOf(items: seq<string>, profile: string) returns (sorted: seq<string>)
    requires NoDuplicates(items)
    ensures Ascending(sorted) && forall k :: k in sorted <==> ItemKey(profile, k) in items
  {
    var keys := [];
    for i := 0 to |items|
      invariant NoDuplicates(keys)
      invariant forall k :: k in keys <==> ItemKey(profile, k) in items[..i]
    {
      OneMoreItem(items, i, profile);
      if Under(profile, items[i]) {
        keys := keys + [BareKey(profile, items[i])];
      }
    }
    assert items[..|items|] == items;
    sorted := SortStrings(keys);
  }

  lemma OneMoreItem(items: seq<string>, i: nat, profile: string)
    requires NoDuplicates(items) && i < |items|
    ensures forall k :: ItemKey(profile, k) in items[..i + 1] <==>
      ItemKey(profile, k) in items[..i] || (Under(profile, items[i]) && k == BareKey(profile, items[i]))
    ensures Under(profile, items[i]) ==> ItemKey(profile, BareKey(profile, items[i])) !in items[..i]
  {
    assert items[..i + 1] == items[..i] + [items[i]];
    assert items[i] !in items[..i];
    if Under(profile, items[i]) {
      BareKeyJoin(profile, items[i]);
      forall k ensures ItemKey(profile, k) == items[i] <==> k == BareKey(profile, items[i]) {
        SameProfileInjective(profile, k, BareKey(profile, items[i]));
      }
    } else {
      forall k ensures ItemKey(profile, k) != items[i] { UnderItemKey(profile, k); }
    }
  }

  method DistinctProfiles(be: AnyBackend) returns (r: Fetched<seq<string>>, ghost call: Call)
    requires be.Valid()
    modifies be.Repr()
    ensures be.Valid() && be.Stored() == old(be.Stored()) && be.Log() == old(be.Log()) + [call]
    ensures ListStep(r, Profiles(be.Stored()), [call])
  {
    hide AnyBackend.Valid, AnyBackend.Stored, AnyBackend.Log;
    var all;
    all, call := be.List();
    assert call in [call];
    if all.Failed? {
      return Failed(all.error), call;
    }
    var items := all.value;
    var seen, profiles := {}, [];
    for i := 0 to |items|
      invariant NoDuplicates(profiles) && forall p :: p in profiles <==> p in seen
      invariant forall p :: p in seen <==> exists k :: 0 <= k < i && ProfileOf(items[k]) == Some(p)
    {
      var profile := ProfileOf(items[i]);
      if profile.None? || profile.value in seen {
        continue;
      }
      seen := seen + {profile.value};
      profiles := profiles + [profile.value];
    }
    assert forall p :: p in profiles <==> p in Profiles(be.Stored()) by {
      forall p ensures p in seen <==> p in Profiles(be.Stored()) {
        if p in seen {
          var k :| 0 <= k < |items| && ProfileOf(items[k]) == Some(p);
          assert items[k] in be.Stored();
        }
        if p in Profiles(be.Stored()) {
          var ik :| ik in be.Stored() && ProfileOf(ik) == Some(p);
          assert ik in items;
        }
      }
    }
    profiles := SortStrings(profiles);
    return Got(profiles), call;
  }

  /** What deleting the first keys of a bundle has done so far. */
  ghost predicate Deleting(keeps: bool, a: Contents, b: Contents, profile: string,
                           done: set<string>, deleted: seq<string>, failed: seq<string>) {
    && Dispositions(done, {}, [], deleted, failed)
    && AgreeExcept(a, b, ItemKeys(profile, done))
    && (forall k :: k in deleted ==> ItemKey(profile, k) !in b)
    && (keeps ==> forall k :: k in failed ==> SameAt(a, b, ItemKey(profile, k)))
  }

  lemma DeleteNext(keeps: bool, a: Contents, b: Contents, c: Contents, profile: string,
                   done: set<string>, deleted: seq<string>, failed: seq<string>, k: string, err: Option<Error>)
    requires Deleting(keeps, a, b, profile, done, deleted, failed)
    requires forall d :: d in done ==> Less(d, k)
    requires DeleteOutcome(b, c, ItemKey(profile, k), err)
    requires keeps && err.Some? ==> c == b
    ensures if err.None? then Deleting(keeps, a, c, profile, done + {k}, deleted + [k], failed)
            else Deleting(keeps, a, c, profile, done + {k}, deleted, failed + [k])
  {
    LessTrichotomy(k, k);
    SortNext(done, {}, [], deleted, failed, k);
    var itemKey := ItemKey(profile, k);
    assert AgreeExcept(b, c, {itemKey});
    assert ItemKeys(profile, done + {k}) == ItemKeys(profile, done) + {itemKey};
    forall x | x !in ItemKeys(profile, done + {k}) ensures SameAt(a, c, x) {
      assert SameAt(a, b, x) && SameAt(b, c, x);
    }
    forall d | d in deleted || d in failed ensures SameAt(b, c, ItemKey(profile, d)) {
      assert d in done;
      SameProfileInjective(profile, d, k);
      assert ItemKey(profile, d) !in {itemKey};
    }
    ItemKeyMember(profile, k, done);
    assert SameAt(a, b, itemKey);
  }

  /** Every key is attempted: a failed delete does not stop the next. */
  method DeleteAll(be: AnyBackend, profile: string, targets: seq<string>, ghost all: set<string>)
    returns (deleted: seq<string>, failed: seq<string>, ghost calls: seq<Call>)
    requires be.Valid() && Enumerates(targets, all)
    requires forall k :: k in all ==> ItemKey(profile, k) in be.Stored()
    modifies be.Repr()
    ensures be.Valid() && be.Log() == old(be.Log()) + calls
    ensures Attempts(calls, profile, targets, {}, failed)
    ensures DeletedExactly(be.Keeps(), old(be.Stored()), be.Stored(), profile, all, deleted, failed)
  {
    hide AnyBackend.Valid, AnyBackend.Stored, AnyBackend.Log;
    hide Deleting, AgreeExcept, DeleteOutcome, Attempts;
    ghost var before := be.Stored();
    deleted, failed, calls := [], [], [];
    NothingDeleted(be.Keeps(), before, profile);
    NothingAttempted(profile, {});
    assert Members(targets[..0]) == {};
    for i := 0 to |targets|
      invariant be.Valid() && be.Log() == old(be.Log()) + calls
      invariant Attempts(calls, profile, targets[..i], {}, failed)
      invariant Deleting(be.Keeps(), before, be.Stored(), profile, Members(targets[..i]), deleted, failed)
    {
      var k := targets[i];
      ghost var now := be.Stored();
      TakeOne(targets, i, []);
      StillThere(be.Keeps(), before, now, profile, Members(targets[..i]), deleted, failed, k);
      assert k in all;
      var err;
      ghost var call;
      err, call := be.Delete(ItemKey(profile, k));
      DeleteNext(be.Keeps(), before, now, be.Stored(), profile, Members(targets[..i]), deleted, failed, k, err);
      AttemptNext(calls, call, profile, targets, i, {}, [], deleted, failed);
      calls := calls + [call];
      if err.Some? {
        failed := failed + [k];
        continue;
      }
      deleted := deleted + [k];
    }
    assert targets[..|targets|] == targets && Members(targets) == all;
    DeletedAll(be.Keeps(), before, be.Stored(), profile, all, deleted, failed);
  }

  lemma StillThere(keeps: bool, a: Contents, b: Contents, profile: string,
                   done: set<string>, deleted: seq<string>, failed: seq<string>, k: string)
    requires Deleting(keeps, a, b, profile, done, deleted, failed)
    requires forall d :: d in done ==> Less(d, k)
    ensures ItemKey(profile, k) in a ==> ItemKey(profile, k) in b
    ensures Dispositions(done, {}, [], deleted, failed)
  {
    LessTrichotomy(k, k);
    ItemKeyMember(profile, k, done);
    assert SameAt(a, b, ItemKey(profile, k));
  }

  lemma NothingDeleted(keeps: bool, a: Contents, profile: string)
    ensures Deleting(keeps, a, a, profile, {}, [], [])
  {}

  lemma DeletedAll(keeps: bool, a: Contents, b: Contents, profile: string,
                   all: set<string>, deleted: seq<string>, failed: seq<string>)
    requires Deleting(keeps, a, b, profile, all, deleted, failed)
    ensures DeletedExactly(keeps, a, b, profile, all, deleted, failed)
  {}

  // ---------- the store ----------

  class Store {
    const allowlist: Allowlist
    ghost const keeps: bool
    var closed: bool
    var be: Option<AnyBackend>

    ghost predicate Valid()
      reads Repr()
    {
      if closed then be.None? else be.Some? && be.value.Valid() && be.value.Keeps() == keeps
    }

    ghost function Repr(): set<object>
      reads this
    {
      {this} + if be.Some? then be.value.Repr() else {}
    }

    ghost function Setting(): Config {
      Config(allowlist, keeps)
    }

    ghost function Abs(): State
      reads Repr()
    {
      if be.Some? then State(closed, be.value.Stored()) else State(closed, map[])
    }

    /** The backend calls so far; a closed store has let go of its backend. */
    ghost function Log(): seq<Call>
      reads Repr()
    {
      if be.Some? then be.value.Log() else []
    }

    /** Nothing is scripted to fail. */
    ghost predicate Quiet()
      reads this
    {
      be.Some? ==> be.value.Quiet()
    }

    constructor (allowlist: Allowlist, be: AnyBackend)
      requires be.Valid()
      ensures Valid() && !closed && this.be == Some(be) && Setting() == Config(allowlist, be.Keeps())
    {
      this.allowlist, this.keeps, this.closed, this.be := allowlist, be.Keeps(), false, Some(be);
    }

    method Close() returns (err: Option<Error>)
      requires Valid()
      modifies Repr()
      ensures Valid() && be == None && Step(Setting(), old(Abs()), Event(OpClose, Ack(err), []), Abs())
      ensures old(be).Some? ==> old(be).value.Log() == old(Log())
      ensures old(be).Some? && old(be).value.Os? ==>
        old(be).value.Valid() && old(be).value.Stored() == old(be.value.Stored())
    {
      if closed {
        return None;
      }
      be.value.Close();
      closed := true;
      be := None;
      return None;
    }

    method Get(profile: string, key: string) returns (r: Fetched<string>, ghost calls: seq<Call>)
      requires Valid()
      modifies Repr()
      ensures Valid() && be == old(be) && Log() == old(Log()) + calls
      ensures Step(Setting(), old(Abs()), Event(OpGet(profile, key), Value(r), calls), Abs())
    {
      calls := [];
      if closed {
        return Failed(StoreClosed), [];
      }
      var err := JoinError(profile, key);
      if err.Some? {
        return Failed(err.value), [];
      }
      ghost var call;
      r, call := be.value.Get(ItemKey(profile, key));
      calls := [call];
      assert call in calls;
    }

    method Set(profile: string, key: string, value: string, overwrite: bool)
      returns (err: Option<Error>, ghost calls: seq<Call>)
      requires Valid()
      modifies Repr()
      ensures Valid() && be == old(be) && Log() == old(Log()) + calls
      ensures Step(Setting(), old(Abs()), Event(OpSet(profile, key, value, overwrite), Ack(err), calls), Abs())
    {
      hide SetOutcome, JoinError, AllowError;
      if closed {
        return Some(StoreClosed), [];
      }
      err := JoinError(profile, key);
      if err.Some? {
        return err, [];
      }
      err := AllowError(allowlist, key);
      if err.Some? {
        return err, [];
      }
      ghost var call;
      err, call := be.value.Set(ItemKey(profile, key), value, overwrite);
      calls := [call];
      assert call in calls;
    }

    method Delete(profile: string, key: string) returns (err: Option<Error>, ghost calls: seq<Call>)
      requires Valid()
      modifies Repr()
      ensures Valid() && be == old(be) && Log() == old(Log()) + calls
      ensures Step(Setting(), old(Abs()), Event(OpDelete(profile, key), Ack(err), calls), Abs())
    {
      hide DeleteOutcome, JoinError, AllowError;
      if closed {
        return Some(StoreClosed), [];
      }
      err := JoinError(profile, key);
      if err.Some? {
        return err, [];
      }
      err := AllowError(allowlist, key);
      if err.Some? {
        return err, [];
      }
      ghost var call;
      err, call := be.value.Delete(ItemKey(profile, key));
      calls := [call];
      assert call in calls;
    }

    method Exists(profile: string, key: string) returns (r: Fetched<bool>, ghost calls: seq<Call>)
      requires Valid()
      modifies Repr()
      ensures Valid() && be == old(be) && Log() == old(Log()) + calls
      ensures Step(Setting(), old(Abs()), Event(OpExists(profile, key), Flag(r), calls), Abs())
    {
      if closed {
        return Failed(StoreClosed), [];
      }
      var err := JoinError(profile, key);
      if err.Some? {
        return Failed(err.value), [];
      }
      ghost var call;
      r, call := be.value.Exists(ItemKey(profile, key));
      calls := [call];
      assert call in calls;
    }

    method ListBundle(profile: string) returns (r: Fetched<seq<string>>, ghost calls: seq<Call>)
      requires Valid()
      modifies Repr()
      ensures Valid() && be == old(be) && Log() == old(Log()) + calls
      ensures Step(Setting(), old(Abs()), Event(OpListBundle(profile), Listing(r), calls), Abs())
    {
      hide ListStep;
      if closed {
        return Failed(StoreClosed), [];
      }
      var err := ProfileError(profile);
      if err.Some? {
        return Failed(err.value), [];
      }
      ghost var call;
      r, call := BundleBareKeys(be.value, profile);
      calls := [call];
    }

    method ListProfiles() returns (r: Fetched<seq<string>>, ghost calls: seq<Call>)
      requires Valid()
      modifies Repr()
      ensures Valid() && be == old(be) && Log() == old(Log()) + calls
      ensures Step(Setting(), old(Abs()), Event(OpListProfiles, Listing(r), calls), Abs())
    {
      hide ListStep;
      if closed {
        return Failed(StoreClosed), [];
      }
      ghost var call;
      r, call := DistinctProfiles(be.value);
      calls := [call];
    }

    method DeleteBundle(profile: string)
      returns (deleted: seq<string>, err: Option<BundleError>, ghost calls: seq<Call>)
      requires Valid()
      modifies Repr()
      ensures Valid() && be == old(be) && Log() == old(Log()) + calls
      ensures Step(Setting(), old(Abs()), Event(OpDeleteBundle(profile), Removed(deleted, err), calls), Abs())
    {
      hide AgreeExcept, Enumerates, Attempts, DeletedExactly;
      if closed {
        return [], Some(Plain(StoreClosed)), [];
      }
      var e := ProfileError(profile);
      if e.Some? {
        return [], Some(Plain(e.value)), [];
      }
      var targets;
      ghost var listing;
      targets, listing := BundleBareKeys(be.value, profile);
      calls := [listing];
      if targets.Failed? {
        assert calls[..0] == [];
        return [], Some(Plain(targets.error)), calls;
      }
      ghost var m := be.value.Stored();
      forall k | k in BareKeys(m, profile) ensures ItemKey(profile, k) in m { BareKeyStored(m, profile, k); }
      var failed;
      ghost var dels;
      deleted, failed, dels := DeleteAll(be.value, profile, targets.value, BareKeys(m, profile));
      calls := calls + dels;
      assert calls[1..] == dels && DeletesAttempted(dels, profile, BareKeys(m, profile), failed);
      if |failed| > 0 {
        return deleted, Some(DeleteFailed(failed)), calls;
      }
      return deleted, None, calls;
    }

    method SetBundle(profile: string, kv: map<string, string>, overwrite: bool)
      returns (res: Result, err: Option<BundleError>, ghost calls: seq<Call>)
      requires Valid()
      modifies Repr()
      ensures Valid() && be == old(be) && Log() == old(Log()) + calls
      ensures Step(Setting(), old(Abs()), Event(OpSetBundle(profile, kv, overwrite), Wrote(res, err), calls), Abs())
    {
      hide SetBundleOutcome;
      if closed {
        return EMPTY, Some(Plain(StoreClosed)), [];
      }
      res, err, calls := CheckedWrite(be.value, allowlist, profile, kv, overwrite);
    }
  }

  // ---------- whole histories ----------

  /** The latest calls of a store whose backend is scripted never to fail. */
  lemma QuietCalls(store: Store, log: seq<Call>, calls: seq<Call>)
    requires store.Valid() && store.Log() == log + calls
    ensures store.Quiet() ==> NoFault(calls)
  {
    if store.Quiet() && store.be.Some? {
      store.be.value.QuietLog(store.Log());
      forall c | c in calls ensures !c.fault { assert c in store.Log(); }
    }
  }

  /** One operation of a client. The calls it reports are those its backend logged. */
  method Perform(store: Store, op: Op) returns (reply: Reply, ghost calls: seq<Call>)
    requires store.Valid()
    modifies store.Repr()
    ensures store.Valid() && store.be == if op.OpClose? then None else old(store.be)
    ensures Step(store.Setting(), old(store.Abs()), Event(op, reply, calls), store.Abs())
    ensures old(store.be).Some? ==> old(store.be).value.Log() == old(store.Log()) + calls
    ensures old(store.be).None? ==> calls == []
    ensures old(store.Quiet()) ==> store.Quiet() && NoFault(calls)
    ensures old(store.be).Some? && old(store.be).value.Os? ==> old(store.be).value.Valid()
    ensures old(store.be).Some? && old(store.be).value.Os? && op.OpClose? ==>
      old(store.be).value.Stored() == old(store.be.value.Stored())
  {
    hide Step, NoFault;
    ghost var log := store.Log();
    NoCallsYet();
    match op
    case OpGet(profile, key) =>
      var r;
      r, calls := store.Get(profile, key);
      reply := Value(r);
      QuietCalls(store, log, calls);
    case OpSet(profile, key, value, overwrite) =>
      var err;
      err, calls := store.Set(profile, key, value, overwrite);
      reply := Ack(err);
      QuietCalls(store, log, calls);
    case OpDelete(profile, key) =>
      var err;
      err, calls := store.Delete(profile, key);
      reply := Ack(err);
      QuietCalls(store, log, calls);
    case OpExists(profile, key) =>
      var r;
      r, calls := store.Exists(profile, key);
      reply := Flag(r);
      QuietCalls(store, log, calls);
    case OpSetBundle(profile, kv, overwrite) =>
      var res, err;
      res, err, calls := store.SetBundle(profile, kv, overwrite);
      reply := Wrote(res, err);
      QuietCalls(store, log, calls);
    case OpDeleteBundle(profile) =>
      var deleted, err;
      deleted, err, calls := store.DeleteBundle(profile);
      reply := Removed(deleted, err);
      QuietCalls(store, log, calls);
    case OpListBundle(profile) =>
      var r;
      r, calls := store.ListBundle(profile);
      reply := Listing(r);
      QuietCalls(store, log, calls);
    case OpListProfiles =>
      var r;
      r, calls := store.ListProfiles();
      reply := Listing(r);
      QuietCalls(store, log, calls);
    case OpClose =>
      var err := store.Close();
      reply, calls := Ack(err), [];
  }

  /** The backend calls of a run, in order. */
  ghost function AllCalls(events: seq<Event>): seq<Call> {
    if events == [] then [] else AllCalls(events[..|events| - 1]) + events[|events| - 1].calls
  }

  lemma AllCallsSnoc(events: seq<Event>, e: Event)
    ensures AllCalls(events + [e]) == AllCalls(events) + e.calls
  {
    assert (events + [e])[..|events|] == events;
  }

  /** How many of the first n events come before the first Close. */
  ghost function OpenEvents(events: seq<Event>, n: nat): (k: nat)
    requires n <= |events|
    ensures k <= n
  {
    if n == 0 then 0
    else
      var k := OpenEvents(events, n - 1);
      if k < n - 1 || events[n - 1].op.OpClose? then k else n
  }

  lemma {:induction false} OpenEventsPrefix(events: seq<Event>, e: Event, n: nat)
    requires n <= |events|
    ensures OpenEvents(events + [e], n) == OpenEvents(events, n)
  {
    if n > 0 { OpenEventsPrefix(events, e, n - 1); }
  }

  /** Whatever a client does with a store, what happens is a run: every history theorem is about
      every client. The backend calls in the run are exactly those the backend logged, so a fault in
      it is a failure there; and a keyring holds, at the end, what the store held when it was
      closed. */
  method Execute(store: Store, ops: seq<Op>)
    returns (replies: seq<Reply>, ghost states: seq<State>, ghost events: seq<Event>)
    requires store.Valid()
    modifies store.Repr()
    ensures store.Valid() && Run(store.Setting(), states, events)
    ensures |replies| == |events| == |ops|
    ensures states[0] == old(store.Abs()) && states[|ops|] == store.Abs()
    ensures forall i :: 0 <= i < |ops| ==> events[i].op == ops[i] && events[i].reply == replies[i]
    ensures old(store.Quiet()) ==> forall i :: 0 <= i < |ops| ==> NoFault(events[i].calls)
    ensures old(store.be).Some? ==> old(store.be).value.Log() == old(store.Log()) + AllCalls(events)
    ensures old(store.be).Some? && old(store.be).value.Os? ==>
      && old(store.be).value.Valid()
      && old(store.be).value.Stored() == states[OpenEvents(events, |events|)].m
    ensures old(store.be).Some? ==>
      store.be == if OpenEvents(events, |events|) == |events| then old(store.be) else None
  {
    hide Step, AllCalls, NoFault;
    hide AnyBackend.Valid, AnyBackend.Stored, AnyBackend.Log, AnyBackend.Keeps, AnyBackend.Quiet;
    replies, states, events := [], [store.Abs()], [];
    ghost var be := store.be;
    ghost var log := store.Log();
    assert AllCalls([]) == [] by { AllCallsEmpty(); }
    for n := 0 to |ops|
      invariant store.Valid() && |replies| == |events| == n && Run(store.Setting(), states, events)
      invariant states[0] == old(store.Abs()) && states[n] == store.Abs()
      invariant forall i :: 0 <= i < n ==> events[i].op == ops[i] && events[i].reply == replies[i]
      invariant be.Some? ==> store.be == (if OpenEvents(events, n) == n then be else None)
      invariant be.None? ==> store.be == None
      invariant old(store.Quiet()) ==> store.Quiet() && forall i :: 0 <= i < n ==> NoFault(events[i].calls)
      invariant be.Some? ==> be.value.Log() == log + AllCalls(events)
      invariant be.Some? && be.value.Os? ==>
        be.value.Valid() && be.value.Stored() == states[OpenEvents(events, n)].m
    {
      var reply;
      ghost var calls;
      reply, calls := Perform(store, ops[n]);
      ghost var e := Event(ops[n], reply, calls);
      AllCallsSnoc(events, e);
      OpenEventsPrefix(events, e, n);
      Regroup(log, AllCalls(events), calls);
      replies, states, events := replies + [reply], states + [store.Abs()], events + [e];
    }
  }

  lemma AllCallsEmpty()
    ensures AllCalls([]) == []
  {}
}
