/** What the operations of a store promise about its contents (credstore/bundle.go,
    credstore/store.go), stated on plain maps from item key `<profile>/<key>` to value. */
module Bundle {
  import opened Text
  import Ref
  import opened Items
  import opened Backend

  // ---------- item keys ----------

  function ItemKey(profile: string, key: string): string {
    profile + "/" + key
  }

  ghost function ItemKeys(profile: string, keys: set<string>): set<string> {
    set k | k in keys :: ItemKey(profile, k)
  }

  lemma ItemKeyInjective(profile: string, key: string, profile': string, key': string)
    requires '/' !in profile && '/' !in profile'
    requires ItemKey(profile, key) == ItemKey(profile', key')
    ensures profile == profile' && key == key'
  {
    Ref.CutJoined(profile, key);
    Ref.CutJoined(profile', key');
  }

  lemma SameProfileInjective(profile: string, key: string, key': string)
    ensures ItemKey(profile, key) == ItemKey(profile, key') ==> key == key'
  {
    assert ItemKey(profile, key)[|profile| + 1..] == key;
    assert ItemKey(profile, key')[|profile| + 1..] == key';
  }

  lemma ItemKeyMember(profile: string, key: string, keys: set<string>)
    ensures ItemKey(profile, key) in ItemKeys(profile, keys) <==> key in keys
  {
    if ItemKey(profile, key) in ItemKeys(profile, keys) {
      var k :| k in keys && ItemKey(profile, k) == ItemKey(profile, key);
      SameProfileInjective(profile, key, k);
    }
  }

  // ---------- validation ----------

  function ProfileError(profile: string): Option<Error> {
    if profile == "" then Some(InvalidRef(Ref.RefError(Ref.Empty, "profile", "")))
    else if !Ref.ValidSegment(profile) then Some(InvalidRef(Ref.RefError(Ref.InvalidChar, "profile", profile)))
    else None
  }

  function KeyError(key: string): Option<Error> {
    if key == "" then Some(InvalidRef(Ref.RefError(Ref.Empty, "key", "")))
    else if !Ref.ValidSegment(key) then Some(InvalidRef(Ref.RefError(Ref.InvalidChar, "key", key)))
    else None
  }

  /** The errors of joinItemKey; on None the item key is ItemKey(profile, key). */
  function JoinError(profile: string, key: string): Option<Error> {
    if ProfileError(profile).Some? then ProfileError(profile) else KeyError(key)
  }

  /** The allowlist of a store; None means that only the syntax of keys is checked. */
  datatype Allowlist = Allowlist(allowed: Option<set<string>>, listed: seq<string>)

  function AllowError(allowlist: Allowlist, key: string): Option<Error> {
    if allowlist.allowed.None? || key in allowlist.allowed.value then None
    else Some(KeyNotAllowed(key, allowlist.listed))
  }

  function WriteKeyError(allowlist: Allowlist, profile: string, key: string): Option<Error> {
    if JoinError(profile, key).Some? then JoinError(profile, key) else AllowError(allowlist, key)
  }

  /** A key that a store with this allowlist writes and deletes. */
  ghost predicate MayWrite(allowlist: Allowlist, key: string) {
    Ref.ValidSegment(key) && (allowlist.allowed.None? || key in allowlist.allowed.value)
  }

  lemma WritableIff(allowlist: Allowlist, profile: string, key: string)
    ensures WriteKeyError(allowlist, profile, key).None? <==> Ref.ValidSegment(profile) && MayWrite(allowlist, key)
  {}

  // ---------- SetBundle ----------

  /** Result of a bundle write: what became of each key. */
  datatype Result = Result(
    written: seq<string>,
    restored: seq<string>,
    absent: seq<string>,
    untouched: seq<string>,
    rollbackFailed: seq<string>)

  /** Errors of the bundle operations. Conflict and WriteFailed wrap what errors.Is then finds:
      AlreadyExists, and the cause. */
  datatype BundleError =
    | Plain(error: Error)
    | Conflict(keys: seq<string>)
    | WriteFailed(key: string, cause: Error, rollbackFailed: seq<string>)
    | DeleteFailed(keys: seq<string>)

  const EMPTY := Result([], [], [], [], [])

  ghost function Existing(m: Contents, profile: string, keys: set<string>): set<string> {
    set k | k in keys && ItemKey(profile, k) in m
  }

  /** All of kv is stored under the profile, and nothing else differs. */
  ghost predicate AllWritten(a: Contents, b: Contents, profile: string, kv: map<string, string>) {
    && AgreeExcept(a, b, ItemKeys(profile, kv.Keys))
    && forall k :: k in kv ==> ItemKey(profile, k) in b && b[ItemKey(profile, k)] == kv[k]
  }

  /** The keys whose write was tried, in the order of their bytes. */
  ghost function UpTo(kv: map<string, string>, failedKey: string): set<string> {
    set k | k in kv && (k == failedKey || Less(k, failedKey))
  }

  /** The keys a rollback must undo: those written before the failure, and the failing key unless
      a racer owns it. */
  ghost function ToUndo(kv: map<string, string>, failedKey: string, racer: bool): set<string> {
    set k | k in kv && (Less(k, failedKey) || (k == failedKey && !racer))
  }

  lemma PrefixUpTo(keys: seq<string>, kv: map<string, string>, w: nat)
    requires Enumerates(keys, kv.Keys) && w < |keys|
    ensures Enumerates(keys[..w + 1], UpTo(kv, keys[w]))
  {
    hide Less;
    LaterSmaller(keys, kv.Keys, w);
    var tried := keys[..w + 1];
    assert tried == keys[..w] + [keys[w]];
    forall k ensures k in tried <==> k in UpTo(kv, keys[w]) {}
  }

  lemma UndoneKeys(keys: seq<string>, kv: map<string, string>, w: nat, racer: bool)
    requires Enumerates(keys, kv.Keys) && w < |keys|
    ensures ToUndo(kv, keys[w], racer) == Members(keys[..w]) + (if racer then {} else {keys[w]})
  {
    LaterSmaller(keys, kv.Keys, w);
  }

  /** A rollback: each undone key has its prior value or absence back, or is named as lost. */
  ghost predicate RolledBack(a: Contents, b: Contents, profile: string, kv: map<string, string>,
                             res: Result, failedKey: string, racer: bool) {
    var undo := ToUndo(kv, failedKey, racer);
    var lost := set k | k in res.rollbackFailed;
    var existing := Existing(a, profile, kv.Keys);
    && failedKey in kv
    && lost <= undo
    && res.written == []
    && Enumerates(res.rollbackFailed, lost)
    && Enumerates(res.restored, (undo - lost) * existing)
    && Enumerates(res.absent, undo - lost - existing)
    && Enumerates(res.untouched, kv.Keys - undo)
    && AgreeExcept(a, b, ItemKeys(profile, lost))
  }

  /** What lost keys hold where a failing write or delete changes nothing: the new value, except the
      failing key, which never changed. */
  ghost predicate LostHold(a: Contents, b: Contents, profile: string, kv: map<string, string>,
                           failedKey: string, lost: seq<string>) {
    forall k :: k in lost ==> k in kv && LostHolds(a, b, ItemKey(profile, k), kv[k], k == failedKey)
  }

  ghost predicate LostHolds(a: Contents, b: Contents, itemKey: string, value: string, neverWritten: bool) {
    if neverWritten then SameAt(a, b, itemKey) else itemKey in b && b[itemKey] == value
  }

  // ---------- the backend calls of a bundle operation ----------

  /** Only the last call is a fault, and it gave this error. */
  ghost predicate EndsInFault(calls: seq<Call>, e: Error) {
    && calls != [] && NoFault(calls[..|calls| - 1])
    && calls[|calls| - 1].fault && calls[|calls| - 1].err == Some(e)
  }

  /** The first n calls: reads, and then one write for each key, in order, each with the caller's
      overwrite flag. Everything that is read is read before the first write. */
  ghost predicate ReadsThenWrites(calls: seq<Call>, n: int, profile: string, keys: seq<string>, overwrite: bool) {
    && |keys| <= n <= |calls|
    && (forall i :: 0 <= i < n - |keys| ==> !calls[i].kind.SetCall? && !calls[i].kind.DeleteCall?)
    && forall i :: 0 <= i < |keys| ==> IsWrite(calls[n - |keys| + i], profile, keys[i], overwrite)
  }

  ghost predicate IsWrite(call: Call, profile: string, key: string, overwrite: bool) {
    call.kind == SetCall(overwrite) && call.itemKey == ItemKey(profile, key)
  }

  /** Up to the first fault: reads, and then the writes of the keys up to the failing one. */
  ghost predicate ForwardTried(calls: seq<Call>, profile: string, kv: map<string, string>, overwrite: bool,
      failedKey: string)
  {
    exists n, tried ::
      && FirstFault(calls, n)
      && Enumerates(tried, UpTo(kv, failedKey))
      && ReadsThenWrites(calls, n + 1, profile, tried, overwrite)
  }

  ghost predicate FirstFault(calls: seq<Call>, n: int) {
    0 <= n < |calls| && calls[n].fault && forall i :: 0 <= i < n ==> !calls[i].fault
  }

  /** One call for each key, in order: a write of the keys to restore and a delete of the others.
      The failed keys are those whose call was a fault. */
  ghost predicate Attempts(calls: seq<Call>, profile: string, keys: seq<string>, restore: set<string>,
      failed: seq<string>)
  {
    |calls| == |keys| && forall i :: 0 <= i < |keys| ==> Attempt(calls[i], profile, keys[i], restore, failed)
  }

  ghost predicate Attempt(call: Call, profile: string, key: string, restore: set<string>, failed: seq<string>) {
    && call.itemKey == ItemKey(profile, key)
    && call.kind == (if key in restore then SetCall(true) else DeleteCall)
    && (key in failed <==> call.fault)
  }

  /** The write of the failing key is the first fault, and after it each key of `undo` was
      attempted. */
  ghost predicate UndoneAfter(calls: seq<Call>, profile: string, failedKey: string, overwrite: bool, cause: Error,
                              undo: seq<string>, restore: set<string>, failed: seq<string>) {
    var w := |calls| - |undo| - 1;
    && 0 <= w
    && NoFault(calls[..w])
    && calls[w].fault && Describes(calls[w], SetCall(overwrite), ItemKey(profile, failedKey), Some(cause))
    && Attempts(calls[w + 1..], profile, undo, restore, failed)
  }

  /** Every key that a rollback must undo was attempted, and only failed attempts lost a key. */
  ghost predicate UndoAttempted(calls: seq<Call>, a: Contents, profile: string, kv: map<string, string>,
                                overwrite: bool, failedKey: string, cause: Error, failed: seq<string>) {
    exists undo ::
      && Enumerates(undo, ToUndo(kv, failedKey, !overwrite && cause.AlreadyExists?))
      && UndoneAfter(calls, profile, failedKey, overwrite, cause, undo, Existing(a, profile, kv.Keys), failed)
  }

  lemma {:induction false} AttemptsFail(calls: seq<Call>, profile: string, keys: seq<string>, restore: set<string>,
      failed: seq<string>)
    requires Attempts(calls, profile, keys, restore, failed)
    requires Ascending(keys) && Ascending(failed) && forall k :: k in failed ==> k in keys
    ensures Faults(calls) == |failed|
  {
    hide ItemKey, Less;
    if keys == [] {
      NoMembers(failed);
    } else {
      var n := |keys| - 1;
      assert Attempt(calls[n], profile, keys[n], restore, failed);
      if calls[n].fault {
        LastFails(keys, failed);
        AttemptsFail(calls[..n], profile, keys[..n], restore, failed[..|failed| - 1]);
      } else {
        forall k | k in failed ensures k in keys[..n] { assert keys == keys[..n] + [keys[n]]; }
        AttemptsFail(calls[..n], profile, keys[..n], restore, failed);
      }
    }
  }

  lemma NoMembers(s: seq<string>)
    ensures s == [] || exists k :: k in s
  {
    if s != [] { assert s[0] in s; }
  }

  /** A failed last key is the last failed key. */
  lemma LastFails(keys: seq<string>, failed: seq<string>)
    requires Ascending(keys) && Ascending(failed) && forall k :: k in failed ==> k in keys
    requires keys != [] && keys[|keys| - 1] in failed
    ensures failed[|failed| - 1] == keys[|keys| - 1]
    ensures forall i :: 0 <= i < |failed| - 1 ==> failed[i] in keys[..|keys| - 1]
    ensures forall k :: k in keys[..|keys| - 1] ==> (k in failed <==> k in failed[..|failed| - 1])
  {
    var last, final := keys[|keys| - 1], failed[|failed| - 1];
    assert keys == keys[..|keys| - 1] + [last] && failed == failed[..|failed| - 1] + [final];
    assert final in failed;
    LessTrichotomy(last, final);
    LessTrichotomy(last, last);
    assert final == last;
    assert last !in failed[..|failed| - 1] && last !in keys[..|keys| - 1];
    forall i | 0 <= i < |failed| - 1 ensures failed[i] in keys[..|keys| - 1] { assert failed[i] in failed; }
  }

  /** The first key in order that fails validation. */
  ghost predicate FirstBadKey(allowlist: Allowlist, profile: string, keys: set<string>, bad: string) {
    && bad in keys && WriteKeyError(allowlist, profile, bad).Some?
    && forall k :: k in keys && Less(k, bad) ==> WriteKeyError(allowlist, profile, k).None?
  }

  ghost predicate AllKeysValid(allowlist: Allowlist, profile: string, keys: set<string>) {
    forall k :: k in keys ==> WriteKeyError(allowlist, profile, k).None?
  }

  /** The first calls ask, in order, for each of the keys whether it exists; without overwriting
      nothing else is read. `looked` counts the reads. */
  ghost predicate Scanned(calls: seq<Call>, looked: int, profile: string, all: set<string>, overwrite: bool) {
    exists keys :: Enumerates(keys, all) && ScannedBy(calls, looked, profile, keys, overwrite)
  }

  ghost predicate ScannedBy(calls: seq<Call>, looked: int, profile: string, keys: seq<string>, overwrite: bool) {
    && |keys| <= looked <= |calls| && (!overwrite ==> looked == |keys|)
    && forall i :: 0 <= i < |keys| ==> IsScan(calls[i], profile, keys[i])
  }

  ghost predicate IsScan(call: Call, profile: string, key: string) {
    call.kind == ExistsCall && call.itemKey == ItemKey(profile, key)
  }

  /** The reads of a call that was not stopped by one of them: before any write it asks for every
      target. */
  ghost predicate TargetsScanned(calls: seq<Call>, profile: string, kv: map<string, string>, overwrite: bool,
                                 res: Result, err: Option<BundleError>) {
    match err
    case None => Scanned(calls, |calls| - |res.written|, profile, kv.Keys, overwrite)
    case Some(Conflict(_)) => Scanned(calls, |calls|, profile, kv.Keys, overwrite)
    case Some(WriteFailed(failedKey, _, _)) => ScannedBefore(calls, profile, kv, overwrite, failedKey)
    case Some(_) => true
  }

  ghost predicate ScannedBefore(calls: seq<Call>, profile: string, kv: map<string, string>, overwrite: bool,
                                failedKey: string) {
    exists n, tried ::
      && FirstFault(calls, n)
      && Enumerates(tried, UpTo(kv, failedKey))
      && Scanned(calls, n + 1 - |tried|, profile, kv.Keys, overwrite)
  }

  /** Everything a SetBundle call on an open store may do, given the backend calls it made. `keeps`
      says that a failing write or delete changes nothing. */
  ghost predicate SetBundleOutcome(allowlist: Allowlist, keeps: bool, calls: seq<Call>, a: Contents, b: Contents,
      profile: string, kv: map<string, string>, overwrite: bool, res: Result, err: Option<BundleError>)
  {
    if ProfileError(profile).Some? then
      err == Some(Plain(ProfileError(profile).value)) && res == EMPTY && b == a && calls == []
    else if kv == map[] then
      err == None && res == EMPTY && b == a && calls == []
    else if !AllKeysValid(allowlist, profile, kv.Keys) then
      && res == EMPTY && b == a && calls == []
      && exists bad :: FirstBadKey(allowlist, profile, kv.Keys, bad)
                    && err == Some(Plain(WriteKeyError(allowlist, profile, bad).value))
    else
      ValidBundleOutcome(keeps, calls, a, b, profile, kv, overwrite, res, err)
  }

  ghost predicate ValidBundleOutcome(keeps: bool, calls: seq<Call>, a: Contents, b: Contents,
      profile: string, kv: map<string, string>, overwrite: bool, res: Result, err: Option<BundleError>)
  {
    var existing := Existing(a, profile, kv.Keys);
    match err
    case None =>
      && NoFault(calls) && (overwrite || existing == {})
      && ReadsThenWrites(calls, |calls|, profile, res.written, overwrite)
      && res == EMPTY.(written := res.written) && Enumerates(res.written, kv.Keys)
      && AllWritten(a, b, profile, kv)
    case Some(Conflict(keys)) =>
      && NoFault(calls) && NoWrites(calls) && !overwrite && existing != {}
      && Enumerates(keys, existing) && res == EMPTY && b == a
    case Some(WriteFailed(failedKey, cause, rollbackFailed)) =>
      && (overwrite || existing == {})
      && rollbackFailed == res.rollbackFailed
      && ForwardTried(calls, profile, kv, overwrite, failedKey)
      && UndoAttempted(calls, a, profile, kv, overwrite, failedKey, cause, rollbackFailed)
      && RolledBack(a, b, profile, kv, res, failedKey, !overwrite && cause.AlreadyExists?)
      && (keeps ==> LostHold(a, b, profile, kv, failedKey, rollbackFailed))
    case Some(Plain(e)) =>
      EndsInFault(calls, e) && NoWrites(calls) && res == EMPTY && b == a
    case Some(DeleteFailed(_)) => false
  }

  // ---------- consequences ----------

  /** The faults of a rolled back call are its failing write and one for every key it lost. */
  lemma LossesAreFaults(keeps: bool, calls: seq<Call>, a: Contents, b: Contents, profile: string,
      kv: map<string, string>, overwrite: bool, res: Result, err: Option<BundleError>)
    requires ValidBundleOutcome(keeps, calls, a, b, profile, kv, overwrite, res, err)
    requires err.Some? && err.value.WriteFailed?
    ensures Faults(calls) == 1 + |res.rollbackFailed|
  {
    hide UndoneAfter, Existing, AgreeExcept, Less, ForwardTried, NoFault, NoWrites, ReadsThenWrites;
    var WriteFailed(failedKey, cause, lost) := err.value;
    var racer := !overwrite && cause.AlreadyExists?;
    var undo :| Enumerates(undo, ToUndo(kv, failedKey, racer))
      && UndoneAfter(calls, profile, failedKey, overwrite, cause, undo, Existing(a, profile, kv.Keys), lost);
    UndoFaults(calls, profile, failedKey, overwrite, cause, undo, Existing(a, profile, kv.Keys), lost);
  }

  lemma UndoFaults(calls: seq<Call>, profile: string, failedKey: string, overwrite: bool, cause: Error,
                   undo: seq<string>, restore: set<string>, failed: seq<string>)
    requires UndoneAfter(calls, profile, failedKey, overwrite, cause, undo, restore, failed)
    requires Ascending(undo) && Ascending(failed) && forall k :: k in failed ==> k in undo
    ensures Faults(calls) == 1 + |failed|
  {
    hide Attempts, Less, NoFault, Describes;
    var w := |calls| - |undo| - 1;
    AttemptsFail(calls[w + 1..], profile, undo, restore, failed);
    NoFaultCounts(calls[..w]);
    assert calls == calls[..w] + [calls[w]] + calls[w + 1..];
    FaultsConcat(calls[..w] + [calls[w]], calls[w + 1..]);
    FaultsConcat(calls[..w], [calls[w]]);
    assert Faults([calls[w]]) == Faults([]) + 1 by { assert [calls[w]][..0] == []; }
  }

  /** Calls that stop at the first fault hold one. */
  lemma PlainFaults(calls: seq<Call>, e: Error)
    requires EndsInFault(calls, e)
    ensures Faults(calls) == 1
  {
    NoFaultCounts(calls[..|calls| - 1]);
  }

  /** All or nothing: a call that succeeds stores every pair and saw no backend call fail; a call
      that fails leaves the store exactly as it was, if it lost no key, and so whenever at most one
      backend call failed. A key is lost only to a further failing call. */
  lemma AllOrNothing(allowlist: Allowlist, keeps: bool, calls: seq<Call>, a: Contents, b: Contents,
      profile: string, kv: map<string, string>, overwrite: bool, res: Result, err: Option<BundleError>)
    requires SetBundleOutcome(allowlist, keeps, calls, a, b, profile, kv, overwrite, res, err)
    ensures err.None? ==> AllWritten(a, b, profile, kv) && NoFault(calls)
    ensures err.Some? && res.rollbackFailed == [] ==> b == a
    ensures err.Some? && Faults(calls) <= 1 ==> b == a
    ensures err.Some? && err.value.WriteFailed? ==> Faults(calls) == 1 + |res.rollbackFailed|
    ensures err.Some? && Faults(calls) > 0 && !err.value.WriteFailed? ==> Faults(calls) == 1 && NoWrites(calls)
  {
    hide UndoAttempted, NoWrites, AllKeysValid, FirstBadKey, WriteKeyError;
    NoFaultCounts(calls);
    if err.Some? && err.value.WriteFailed? {
      LossesAreFaults(keeps, calls, a, b, profile, kv, overwrite, res, err);
      if res.rollbackFailed == [] {
        assert ItemKeys(profile, set k | k in res.rollbackFailed) == {};
        SameEverywhere(a, b);
      }
    } else if err.Some? && err.value.Plain? && calls != [] {
      PlainFaults(calls, err.value.error);
    }
  }

  /** Nobody is left wondering: any entry that differs after a failed call is named in
      RollbackFailed, and the backend call that was to undo it failed. */
  lemma DamageIsNamed(allowlist: Allowlist, keeps: bool, calls: seq<Call>, a: Contents, b: Contents,
      profile: string, kv: map<string, string>, overwrite: bool, res: Result, err: Option<BundleError>, k: string)
    requires SetBundleOutcome(allowlist, keeps, calls, a, b, profile, kv, overwrite, res, err)
    requires err.Some? && !SameAt(a, b, k)
    ensures err.value.WriteFailed? && err.value.rollbackFailed == res.rollbackFailed
    ensures exists lost :: lost in res.rollbackFailed && lost in kv && k == ItemKey(profile, lost)
    ensures exists i :: 0 < i < |calls| && calls[i].fault && calls[i].itemKey == k
                     && calls[i].kind == if k in a then SetCall(true) else DeleteCall
  {
    hide AllKeysValid, FirstBadKey, NoWrites, Enumerates;
    assert err.value.WriteFailed?;
    var WriteFailed(failedKey, cause, rollbackFailed) := err.value;
    var lost :| lost in rollbackFailed && lost in kv && k == ItemKey(profile, lost);
    var i := LossIsFault(calls, a, profile, kv, overwrite, failedKey, cause, rollbackFailed, lost);
  }

  lemma LossIsFault(calls: seq<Call>, a: Contents, profile: string, kv: map<string, string>,
                    overwrite: bool, failedKey: string, cause: Error, failed: seq<string>, lost: string)
    returns (i: nat)
    requires UndoAttempted(calls, a, profile, kv, overwrite, failedKey, cause, failed)
    requires lost in failed && lost in ToUndo(kv, failedKey, !overwrite && cause.AlreadyExists?)
    ensures 0 < i < |calls| && calls[i].fault && calls[i].itemKey == ItemKey(profile, lost)
    ensures calls[i].kind == if ItemKey(profile, lost) in a then SetCall(true) else DeleteCall
  {
    hide ItemKey, Ascending;
    var existing := Existing(a, profile, kv.Keys);
    var undo :| Enumerates(undo, ToUndo(kv, failedKey, !overwrite && cause.AlreadyExists?))
      && UndoneAfter(calls, profile, failedKey, overwrite, cause, undo, existing, failed);
    var j :| 0 <= j < |undo| && undo[j] == lost;
    var w := |calls| - |undo| - 1;
    assert Attempt(calls[w + 1..][j], profile, undo[j], existing, failed);
    i := w + 1 + j;
  }

  /** Where a failing write or delete changes nothing, the damage is known exactly: an entry that
      differs after a failed call is that of a lost key other than the failing one, and holds the new
      value of that key; and every such key is one. */
  lemma DamageIsKnown(allowlist: Allowlist, calls: seq<Call>, a: Contents, b: Contents,
      profile: string, kv: map<string, string>, overwrite: bool, res: Result, err: Option<BundleError>)
    requires SetBundleOutcome(allowlist, true, calls, a, b, profile, kv, overwrite, res, err)
    requires err.Some? && err.value.WriteFailed?
    ensures forall itemKey :: !SameAt(a, b, itemKey) ==>
      exists k :: k in res.rollbackFailed && k != err.value.key && k in kv
               && itemKey == ItemKey(profile, k) && itemKey in b && b[itemKey] == kv[k]
    ensures LostHold(a, b, profile, kv, err.value.key, res.rollbackFailed)
  {
    hide UndoAttempted, ForwardTried, FirstBadKey, AllKeysValid, Enumerates;
  }

  /** On a rollback the four lists are disjoint and together exactly the keys of kv; every list is
      sorted and free of duplicates; and each tells the truth about its keys. A key is listed as
      lost exactly when the one call that was to undo it failed. */
  lemma FatesPartition(allowlist: Allowlist, keeps: bool, calls: seq<Call>, a: Contents, b: Contents,
      profile: string, kv: map<string, string>, overwrite: bool, res: Result, err: Option<BundleError>)
    requires SetBundleOutcome(allowlist, keeps, calls, a, b, profile, kv, overwrite, res, err)
    requires err.Some? && err.value.WriteFailed?
    ensures res.written == []
    ensures Ascending(res.restored) && Ascending(res.absent)
    ensures Ascending(res.untouched) && Ascending(res.rollbackFailed)
    ensures forall k :: k in kv ==>
      (if k in res.restored then 1 else 0) + (if k in res.absent then 1 else 0)
      + (if k in res.untouched then 1 else 0) + (if k in res.rollbackFailed then 1 else 0) == 1
    ensures forall k :: k in res.restored || k in res.absent ==> k in kv
    ensures forall k :: k in res.untouched || k in res.rollbackFailed ==> k in kv
    ensures forall k :: k in res.restored ==>
      ItemKey(profile, k) in a && ItemKey(profile, k) in b && b[ItemKey(profile, k)] == a[ItemKey(profile, k)]
    ensures forall k :: k in res.absent ==> ItemKey(profile, k) !in a && ItemKey(profile, k) !in b
    ensures forall k :: k in res.untouched ==> SameAt(a, b, ItemKey(profile, k))
    ensures UndoAttempted(calls, a, profile, kv, overwrite, err.value.key, err.value.cause, res.rollbackFailed)
  {
    hide UndoAttempted, FirstBadKey;
    assert AllKeysValid(allowlist, profile, kv.Keys);
    var lost := set k | k in res.rollbackFailed;
    forall k | k in kv && k !in lost ensures SameAt(a, b, ItemKey(profile, k)) {
      ItemKeyMember(profile, k, lost);
    }
  }

  /** With no backend failure, a well-formed call succeeds exactly when nothing is in its way. */
  lemma QuietSuccess(allowlist: Allowlist, keeps: bool, calls: seq<Call>, a: Contents, b: Contents,
      profile: string, kv: map<string, string>, overwrite: bool, res: Result, err: Option<BundleError>)
    requires SetBundleOutcome(allowlist, keeps, calls, a, b, profile, kv, overwrite, res, err) && NoFault(calls)
    requires ProfileError(profile).None? && AllKeysValid(allowlist, profile, kv.Keys)
    ensures err.None? <==> overwrite || Existing(a, profile, kv.Keys) == {}
    ensures err.Some? ==> err.value.Conflict?
  {}

  // ---------- listing and deleting ----------

  predicate Under(profile: string, itemKey: string) {
    profile + "/" <= itemKey
  }

  function BareKey(profile: string, itemKey: string): string
    requires Under(profile, itemKey)
  {
    itemKey[|profile| + 1..]
  }

  ghost function BareKeys(m: Contents, profile: string): set<string> {
    set ik | ik in m && Under(profile, ik) :: BareKey(profile, ik)
  }

  lemma BareKeyJoin(profile: string, itemKey: string)
    requires Under(profile, itemKey)
    ensures ItemKey(profile, BareKey(profile, itemKey)) == itemKey
  {}

  lemma UnderItemKey(profile: string, key: string)
    ensures Under(profile, ItemKey(profile, key)) && BareKey(profile, ItemKey(profile, key)) == key
  {}

  lemma BareKeyStored(m: Contents, profile: string, key: string)
    ensures key in BareKeys(m, profile) <==> ItemKey(profile, key) in m
  {
    UnderItemKey(profile, key);
    if key in BareKeys(m, profile) {
      var ik :| ik in m && Under(profile, ik) && BareKey(profile, ik) == key;
      BareKeyJoin(profile, ik);
    }
  }

  /** The profile of a stored item, if it has one. */
  function ProfileOf(itemKey: string): Option<string> {
    var (profile, _, found) := Ref.CutSlash(itemKey);
    if !found || profile == "" then None else Some(profile)
  }

  ghost function Profiles(m: Contents): set<string> {
    set ik | ik in m && ProfileOf(ik).Some? :: ProfileOf(ik).value
  }

  /** Every item of the store is `<profile>/<key>` with a non-empty profile. */
  ghost predicate OnlyBundles(m: Contents) {
    forall ik :: ik in m ==> ProfileOf(ik).Some?
  }

  /** An item key of a valid profile and a valid key: the only ones a store writes. */
  ghost predicate WellFormedItem(itemKey: string) {
    exists profile, key :: itemKey == profile + "/" + key && Ref.ValidSegment(profile) && Ref.ValidSegment(key)
  }

  ghost predicate WellFormed(m: Contents) {
    forall ik :: ik in m ==> WellFormedItem(ik)
  }

  /** Where every item is well formed, every profile is one that ListBundle accepts. */
  lemma ProfilesAreValid(m: Contents, profile: string)
    requires WellFormed(m) && profile in Profiles(m)
    ensures ProfileError(profile).None? && '/' !in profile && BareKeys(m, profile) != {}
  {
    var ik :| ik in m && ProfileOf(ik) == Some(profile);
    var p, k :| ik == p + "/" + k && Ref.ValidSegment(p) && Ref.ValidSegment(k);
    Ref.CutJoined(p, k);
    UnderItemKey(p, k);
    assert k in BareKeys(m, profile);
  }

  lemma ItemIsListed(m: Contents, itemKey: string) returns (profile: string, key: string)
    requires WellFormed(m) && itemKey in m
    ensures itemKey == ItemKey(profile, key) && profile in Profiles(m) && key in BareKeys(m, profile)
  {
    profile, key :| itemKey == profile + "/" + key && Ref.ValidSegment(profile) && Ref.ValidSegment(key);
    Ref.CutJoined(profile, key);
    assert ProfileOf(itemKey) == Some(profile);
    BareKeyStored(m, profile, key);
  }

  // ---------- the store as a map from pairs ----------

  ghost function PairOf(itemKey: string): (string, string) {
    var (profile, key, _) := Ref.CutSlash(itemKey);
    (profile, key)
  }

  ghost function Pairs(m: Contents): set<(string, string)> {
    set ik | ik in m && ProfileOf(ik).Some? :: PairOf(ik)
  }

  lemma PairStored(m: Contents, profile: string, key: string)
    requires profile != "" && '/' !in profile
    ensures PairOf(ItemKey(profile, key)) == (profile, key) && ProfileOf(ItemKey(profile, key)) == Some(profile)
    ensures (profile, key) in Pairs(m) <==> ItemKey(profile, key) in m
  {
    Ref.CutJoined(profile, key);
    if (profile, key) in Pairs(m) {
      var ik :| ik in m && ProfileOf(ik).Some? && PairOf(ik) == (profile, key);
      Ref.JoinCut(ik);
    }
  }

  /** What is stored, by profile and key. */
  ghost function View(m: Contents): map<(string, string), string> {
    PairsStored(m);
    map pair | pair in Pairs(m) :: m[ItemKey(pair.0, pair.1)]
  }

  lemma PairsStored(m: Contents)
    ensures forall pair :: pair in Pairs(m) ==> ItemKey(pair.0, pair.1) in m && pair.0 != "" && '/' !in pair.0
  {
    forall pair | pair in Pairs(m)
      ensures ItemKey(pair.0, pair.1) in m && pair.0 != "" && '/' !in pair.0
    {
      var ik :| ik in m && ProfileOf(ik).Some? && PairOf(ik) == pair;
      Ref.JoinCut(ik);
    }
  }

  lemma ViewLookup(m: Contents, profile: string, key: string)
    requires profile != "" && '/' !in profile
    ensures (profile, key) in View(m) <==> ItemKey(profile, key) in m
    ensures (profile, key) in View(m) ==> View(m)[(profile, key)] == m[ItemKey(profile, key)]
  {
    PairStored(m, profile, key);
  }

  /** The item-key map is a map from pairs in disguise: reading, writing and removing an item key
      read, write and remove its pair and no other, and the pairs determine the store. */
  lemma StoreIsMapOfPairs(m: Contents, profile: string, key: string, value: string)
    requires profile != "" && '/' !in profile
    ensures (profile, key) in View(m) <==> ItemKey(profile, key) in m
    ensures (profile, key) in View(m) ==> View(m)[(profile, key)] == m[ItemKey(profile, key)]
    ensures View(m[ItemKey(profile, key) := value]) == View(m)[(profile, key) := value]
    ensures View(m - {ItemKey(profile, key)}) == View(m) - {(profile, key)}
  {
    hide View;
    var itemKey := ItemKey(profile, key);
    var written, removed := m[itemKey := value], m - {itemKey};
    ViewLookup(m, profile, key);
    ViewLookup(written, profile, key);
    ViewPoint(m, written, profile, key);
    ViewPoint(m, removed, profile, key);
    assert View(written) == View(m)[(profile, key) := value];
    assert View(removed) == View(m) - {(profile, key)};
  }

  /** Two stores that differ at one item key at most differ in view at its pair at most. */
  lemma ViewPoint(m: Contents, n: Contents, profile: string, key: string)
    requires profile != "" && '/' !in profile
    requires forall ik :: ik != ItemKey(profile, key) ==> SameAt(m, n, ik)
    ensures forall pair :: pair != (profile, key) ==> (pair in View(n) <==> pair in View(m))
    ensures forall pair :: pair != (profile, key) && pair in View(m) ==> View(n)[pair] == View(m)[pair]
    ensures (profile, key) in View(n) <==> ItemKey(profile, key) in n
  {
    PairStored(n, profile, key);
    PairsStored(m);
    PairsStored(n);
    forall pair | pair != (profile, key) && (pair in Pairs(m) || pair in Pairs(n))
      ensures pair in Pairs(m) && pair in Pairs(n) && m[ItemKey(pair.0, pair.1)] == n[ItemKey(pair.0, pair.1)]
    {
      PairStored(m, pair.0, pair.1);
      PairStored(n, pair.0, pair.1);
      if ItemKey(pair.0, pair.1) == ItemKey(profile, key) { ItemKeyInjective(pair.0, pair.1, profile, key); }
      assert SameAt(m, n, ItemKey(pair.0, pair.1));
    }
  }

  /** Stores of well-formed items with the same view are the same store. */
  lemma ViewDetermines(m: Contents, n: Contents)
    requires OnlyBundles(m) && OnlyBundles(n) && View(m) == View(n)
    ensures m == n
  {
    forall ik | ik in m || ik in n ensures SameAt(m, n, ik) {
      Ref.JoinCut(ik);
      var (profile, key) := PairOf(ik);
      assert ProfileOf(ik) == Some(profile) && ik == ItemKey(profile, key);
      ViewLookup(m, profile, key);
      ViewLookup(n, profile, key);
    }
    SameEverywhere(m, n);
  }

  /** DeleteBundle on an open store under a valid profile: the listing, and then one delete for each
      listed key. `keeps` says that a failed delete changes nothing. */
  ghost predicate DeleteBundleOutcome(keeps: bool, calls: seq<Call>, a: Contents, b: Contents,
      profile: string, deleted: seq<string>, err: Option<BundleError>)
  {
    && calls != [] && calls[0].kind == ListCall
    && match err
       case None => !calls[0].fault && DeletedAfter(keeps, calls[1..], a, b, profile, deleted, [])
       case Some(DeleteFailed(failed)) =>
         failed != [] && !calls[0].fault && DeletedAfter(keeps, calls[1..], a, b, profile, deleted, failed)
       case Some(Plain(e)) => |calls| == 1 && EndsInFault(calls, e) && deleted == [] && b == a
       case Some(_) => false
  }

  /** Every key of the profile was attempted, and the failed ones are those whose delete failed. */
  ghost predicate DeletedAfter(keeps: bool, calls: seq<Call>, a: Contents, b: Contents,
      profile: string, deleted: seq<string>, failed: seq<string>)
  {
    var targets := BareKeys(a, profile);
    && DeletedExactly(keeps, a, b, profile, targets, deleted, failed)
    && DeletesAttempted(calls, profile, targets, failed)
  }

  ghost predicate DeletesAttempted(calls: seq<Call>, profile: string, targets: set<string>, failed: seq<string>) {
    exists order :: Enumerates(order, targets) && Attempts(calls, profile, order, {}, failed)
  }

  ghost predicate DeletedExactly(keeps: bool, a: Contents, b: Contents, profile: string,
      targets: set<string>, deleted: seq<string>, failed: seq<string>)
  {
    var lost := set k | k in failed;
    && lost <= targets
    && Enumerates(failed, lost)
    && Enumerates(deleted, targets - lost)
    && (forall k :: k in deleted ==> ItemKey(profile, k) !in b)
    && AgreeExcept(a, b, ItemKeys(profile, targets))
    && (keeps ==> forall k :: k in failed ==> SameAt(a, b, ItemKey(profile, k)))
  }

  /** What a store keeps of another profile when one profile's bundle is deleted. */
  lemma DeleteTouchesOneProfile(keeps: bool, calls: seq<Call>, a: Contents, b: Contents,
      profile: string, deleted: seq<string>, err: Option<BundleError>, itemKey: string)
    requires DeleteBundleOutcome(keeps, calls, a, b, profile, deleted, err)
    requires !Under(profile, itemKey)
    ensures SameAt(a, b, itemKey)
  {}

  /** When no call fails the profile is empty afterwards. */
  lemma QuietDeleteEmpties(keeps: bool, calls: seq<Call>, a: Contents, b: Contents,
      profile: string, deleted: seq<string>, err: Option<BundleError>)
    requires DeleteBundleOutcome(keeps, calls, a, b, profile, deleted, err) && NoFault(calls)
    ensures err.None? && Enumerates(deleted, BareKeys(a, profile)) && BareKeys(b, profile) == {}
  {
    hide DeletedExactly, Under;
    NoFaultCounts(calls);
    if err.Some? && err.value.DeleteFailed? {
      FailuresAreFaults(keeps, calls, a, b, profile, deleted, err.value.keys);
    }
    var targets := BareKeys(a, profile);
    EmptyAfterDelete(keeps, a, b, profile, targets, deleted);
  }

  lemma EmptyAfterDelete(keeps: bool, a: Contents, b: Contents, profile: string, targets: set<string>,
      deleted: seq<string>)
    requires targets == BareKeys(a, profile) && DeletedExactly(keeps, a, b, profile, targets, deleted, [])
    ensures Enumerates(deleted, targets) && BareKeys(b, profile) == {}
  {
    assert targets - (set k | k in []) == targets;
    forall k ensures k !in BareKeys(b, profile) {
      BareKeyStored(a, profile, k);
      BareKeyStored(b, profile, k);
      ItemKeyMember(profile, k, targets);
    }
  }

  lemma FailuresAreFaults(keeps: bool, calls: seq<Call>, a: Contents, b: Contents, profile: string,
                          deleted: seq<string>, failed: seq<string>)
    requires calls != [] && !calls[0].fault && DeletedAfter(keeps, calls[1..], a, b, profile, deleted, failed)
    ensures Faults(calls) == |failed|
  {
    hide Attempts, AgreeExcept, Under, Less;
    var targets := BareKeys(a, profile);
    var order :| Enumerates(order, targets) && Attempts(calls[1..], profile, order, {}, failed);
    AttemptsFail(calls[1..], profile, order, {}, failed);
    assert calls == [calls[0]] + calls[1..] && [calls[0]][..0] == [];
    FaultsConcat([calls[0]], calls[1..]);
  }

  /** A delete of this item failed. */
  ghost predicate FailedDeleteOf(call: Call, itemKey: string) {
    call.fault && call.kind == DeleteCall && call.itemKey == itemKey
  }

  /** A failed delete costs its own key only: as many keys are reported failed as calls failed, the
      others are gone, and where a failed delete changes nothing, exactly the reported keys remain,
      each with its value. */
  lemma DeleteLeavesFailed(keeps: bool, calls: seq<Call>, a: Contents, b: Contents,
      profile: string, deleted: seq<string>, err: Option<BundleError>)
    requires DeleteBundleOutcome(keeps, calls, a, b, profile, deleted, err)
    requires err.Some? && err.value.DeleteFailed?
    ensures |err.value.keys| == Faults(calls)
    ensures forall k :: k in err.value.keys ==>
      exists i :: 0 < i < |calls| && FailedDeleteOf(calls[i], ItemKey(profile, k))
    ensures forall k :: k in BareKeys(b, profile) ==> k in err.value.keys
    ensures keeps ==> forall k :: k in err.value.keys ==> k in BareKeys(b, profile) && SameAt(a, b, ItemKey(profile, k))
  {
    hide Under, Less, BareKeys;
    FailuresAreFaults(keeps, calls, a, b, profile, deleted, err.value.keys);
    forall k | k in err.value.keys
      ensures exists i :: 0 < i < |calls| && FailedDeleteOf(calls[i], ItemKey(profile, k))
    {
      var i := FailureIsFault(calls[1..], profile, BareKeys(a, profile), err.value.keys, k);
      assert FailedDeleteOf(calls[1 + i], ItemKey(profile, k));
    }
    forall k ensures k in BareKeys(b, profile) ==> k in err.value.keys {
      BareKeyStored(a, profile, k);
      BareKeyStored(b, profile, k);
      ItemKeyMember(profile, k, BareKeys(a, profile));
    }
    forall k | keeps && k in err.value.keys ensures k in BareKeys(b, profile) && SameAt(a, b, ItemKey(profile, k)) {
      BareKeyStored(a, profile, k);
      BareKeyStored(b, profile, k);
    }
  }

  lemma FailureIsFault(calls: seq<Call>, profile: string, targets: set<string>, failed: seq<string>, k: string)
    returns (i: nat)
    requires DeletesAttempted(calls, profile, targets, failed) && k in failed && k in targets
    ensures i < |calls| && calls[i].fault && calls[i].kind == DeleteCall && calls[i].itemKey == ItemKey(profile, k)
  {
    hide ItemKey, Ascending;
    var order :| Enumerates(order, targets) && Attempts(calls, profile, order, {}, failed);
    i :| 0 <= i < |order| && order[i] == k;
    assert Attempt(calls[i], profile, order[i], {}, failed);
  }
}
