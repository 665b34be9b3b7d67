/** What a client of a store sees (credstore/store.go, credstore/bundle.go), on the text of names and
    item keys, the order of bytes and the errors themselves: which arguments are refused and how, and
    what the accepted operations store, change, list and order. */
module Behaviour {
  import opened Text
  import Ref
  import opened Items
  import opened Backend
  import opened Bundle
  import opened History

  // ---------- refused arguments ----------

  /** The error of a profile or key that is not a segment. */
  ghost function NotASegment(which: string, s: string): Error {
    InvalidRef(Ref.RefError(if s == "" then Ref.Empty else Ref.InvalidChar, which, s))
  }

  /** The operation fails with this error, returns nothing else and asks nothing of the backend. */
  ghost predicate RefusedWith(e: Event, err: Error) {
    && e.calls == []
    && match e.reply
       case Value(got) => got == Failed(err)
       case Flag(found) => found == Failed(err)
       case Ack(answer) => answer == Some(err)
       case Wrote(res, outcome) => res == Result([], [], [], [], []) && outcome == Some(Plain(err))
       case Removed(deleted, failure) => deleted == [] && failure == Some(Plain(err))
       case Listing(keys) => keys == Failed(err)
  }

  /** A profile that is no segment is refused by every operation that names one, and nothing
      changes. */
  lemma BadProfileRefused(config: Config, a: State, e: Event, b: State)
    requires Step(config, a, e, b) && !a.closed && !e.op.OpClose? && !e.op.OpListProfiles?
    requires !Ref.ValidSegment(e.op.profile)
    ensures b == a && RefusedWith(e, NotASegment("profile", e.op.profile))
  {
    hide DeleteBundleOutcome, ValidBundleOutcome, FirstBadKey, TargetsScanned;
  }

  /** So is a key that is no segment, by every operation on one item. */
  lemma BadKeyRefused(config: Config, a: State, e: Event, b: State)
    requires Step(config, a, e, b) && !a.closed
    requires e.op.OpGet? || e.op.OpExists? || e.op.OpSet? || e.op.OpDelete?
    requires Ref.ValidSegment(e.op.profile) && !Ref.ValidSegment(e.op.key)
    ensures b == a && RefusedWith(e, NotASegment("key", e.op.key))
  {}

  /** A key that the allowlist lacks is neither set nor deleted, whatever is stored: the store names
      the key and what is allowed, changes nothing and calls no backend. */
  lemma DisallowedKeyRefused(config: Config, allowed: set<string>, a: State, e: Event, b: State)
    requires Step(config, a, e, b) && !a.closed && (e.op.OpSet? || e.op.OpDelete?)
    requires Ref.ValidSegment(e.op.profile) && Ref.ValidSegment(e.op.key)
    requires config.allowlist.allowed == Some(allowed) && e.op.key !in allowed
    ensures b == a && e.calls == [] && e.reply == Ack(Some(KeyNotAllowed(e.op.key, config.allowlist.listed)))
  {}

  /** The error of a key that a bundle may not hold. */
  ghost function BadKeyError(allowlist: Allowlist, key: string): Error {
    if Ref.ValidSegment(key) then KeyNotAllowed(key, allowlist.listed) else NotASegment("key", key)
  }

  ghost predicate FirstByBytes(keys: set<string>, bad: string, allowlist: Allowlist) {
    bad in keys && !MayWrite(allowlist, bad) && forall k :: k in keys && ByteBefore(k, bad) ==> MayWrite(allowlist, k)
  }

  /** A bundle with a key that is malformed or not allowed is refused whole, with the error of the
      first such key in the order of bytes. */
  lemma BadBundleRefused(config: Config, a: State, e: Event, b: State)
    requires Step(config, a, e, b) && !a.closed && e.op.OpSetBundle? && Ref.ValidSegment(e.op.profile)
    requires exists k :: k in e.op.kv && !MayWrite(config.allowlist, k)
    ensures b == a
    ensures exists bad :: FirstByBytes(e.op.kv.Keys, bad, config.allowlist)
                       && RefusedWith(e, BadKeyError(config.allowlist, bad))
  {
    hide ValidBundleOutcome, TargetsScanned, Less, ByteBefore, RefusedWith, MayWrite;
    var allowlist, profile, kv := config.allowlist, e.op.profile, e.op.kv;
    var some :| some in kv && !MayWrite(allowlist, some);
    WritableIff(allowlist, profile, some);
    assert !AllKeysValid(allowlist, profile, kv.Keys);
    var bad :| FirstBadKey(allowlist, profile, kv.Keys, bad)
      && e.reply.outcome == Some(Plain(WriteKeyError(allowlist, profile, bad).value));
    WritableIff(allowlist, profile, bad);
    forall k | k in kv && ByteBefore(k, bad) ensures MayWrite(allowlist, k) {
      LessIsByteBefore(k, bad);
      WritableIff(allowlist, profile, k);
    }
    BadKeyErrorIs(allowlist, profile, bad);
    RefusedBundle(e, BadKeyError(allowlist, bad));
  }

  lemma BadKeyErrorIs(allowlist: Allowlist, profile: string, bad: string)
    requires Ref.ValidSegment(profile) && !MayWrite(allowlist, bad)
    ensures WriteKeyError(allowlist, profile, bad) == Some(BadKeyError(allowlist, bad))
  {}

  lemma RefusedBundle(e: Event, err: Error)
    requires e.reply == Wrote(EMPTY, Some(Plain(err))) && e.calls == []
    ensures RefusedWith(e, err)
  {}

  // ---------- items ----------

  /** The one backend call of an operation on one item. */
  ghost function CallOf(op: Op): Kind
    requires op.OpGet? || op.OpExists? || op.OpSet? || op.OpDelete?
  {
    match op
    case OpGet(_, _) => GetCall
    case OpExists(_, _) => ExistsCall
    case OpSet(_, _, _, overwrite) => SetCall(overwrite)
    case OpDelete(_, _) => DeleteCall
  }

  /** Any other operation on one item is one backend call on the item of its text, and unless that
      call fails it reads, sets or deletes that entry of the map: overwriting only where asked to,
      deleting only what is there. */
  lemma ItemOperation(config: Config, a: State, e: Event, b: State)
    requires Step(config, a, e, b) && !a.closed
    requires e.op.OpGet? || e.op.OpExists? || e.op.OpSet? || e.op.OpDelete?
    requires Ref.ValidSegment(e.op.profile) && Ref.ValidSegment(e.op.key)
    requires e.op.OpSet? || e.op.OpDelete? ==> MayWrite(config.allowlist, e.op.key)
    ensures var itemKey := e.op.profile + "/" + e.op.key;
      && |e.calls| == 1 && e.calls[0].itemKey == itemKey && e.calls[0].kind == CallOf(e.op)
      && AgreeExcept(a.m, b.m, {itemKey})
      && (!e.calls[0].fault ==>
            match e.op
            case OpGet(_, _) =>
              b == a && e.reply == Value(if itemKey in a.m then Got(a.m[itemKey]) else Failed(NotFound))
            case OpExists(_, _) => b == a && e.reply == Flag(Got(itemKey in a.m))
            case OpSet(_, _, value, overwrite) =>
              if itemKey in a.m && !overwrite then b == a && e.reply == Ack(Some(AlreadyExists))
              else b == a.(m := a.m[itemKey := value]) && e.reply == Ack(None)
            case _ =>
              if itemKey in a.m then b == a.(m := a.m - {itemKey}) && e.reply == Ack(None)
              else b == a && e.reply == Ack(Some(NotFound)))
  {}

  // ---------- listings ----------

  ghost predicate HasItem(m: Contents, profile: string, key: string) {
    profile + "/" + key in m
  }

  /** ListBundle: the keys whose item is stored under the profile, each once, in the order of their
      bytes. */
  lemma ListBundleReply(config: Config, a: State, e: Event, b: State)
    requires Step(config, a, e, b) && !a.closed && NoFault(e.calls)
    requires e.op.OpListBundle? && Ref.ValidSegment(e.op.profile)
    ensures b == a && e.reply.Listing? && e.reply.keys.Got? && InByteOrder(e.reply.keys.value)
    ensures forall k :: k in e.reply.keys.value <==> HasItem(a.m, e.op.profile, k)
  {
    hide Less, BareKeys;
    var keys := e.reply.keys.value;
    AscendingByBytes(keys);
    forall k ensures k in keys <==> HasItem(a.m, e.op.profile, k) {
      BareKeyStored(a.m, e.op.profile, k);
    }
  }

  /** ListProfiles: what stands before the first slash of a stored item, unless it is empty, each
      once, in the order of their bytes. */
  lemma ListProfilesReply(config: Config, a: State, e: Event, b: State)
    requires Step(config, a, e, b) && !a.closed && NoFault(e.calls) && e.op.OpListProfiles?
    ensures b == a && e.reply.Listing? && e.reply.keys.Got? && InByteOrder(e.reply.keys.value)
    ensures forall p :: p in e.reply.keys.value <==> p != "" && '/' !in p && exists k :: HasItem(a.m, p, k)
  {
    hide Less, Profiles;
    var profiles := e.reply.keys.value;
    AscendingByBytes(profiles);
    forall p ensures p in profiles <==> p != "" && '/' !in p && exists k :: HasItem(a.m, p, k) {
      ProfileStored(a.m, p);
    }
  }

  lemma ProfileStored(m: Contents, p: string)
    ensures p in Profiles(m) <==> p != "" && '/' !in p && exists k :: HasItem(m, p, k)
  {
    if p in Profiles(m) {
      var ik :| ik in m && ProfileOf(ik) == Some(p);
      Ref.JoinCut(ik);
      assert HasItem(m, p, PairOf(ik).1);
    }
    if k :| p != "" && '/' !in p && HasItem(m, p, k) {
      Ref.CutJoined(p, k);
      assert ProfileOf(p + "/" + k) == Some(p);
    }
  }

  // ---------- bundles ----------

  /** The call writes this key under the profile. */
  ghost predicate WritesKey(call: Call, profile: string, key: string, overwrite: bool) {
    call.kind == SetCall(overwrite) && call.itemKey == profile + "/" + key
  }

  /** The last calls write these keys, one each, in this order. */
  ghost predicate EndsInWrites(calls: seq<Call>, profile: string, keys: seq<string>, overwrite: bool) {
    |keys| <= |calls| &&
    forall i :: 0 <= i < |keys| ==> WritesKey(calls[|calls| - |keys| + i], profile, keys[i], overwrite)
  }

  /** A bundle that was written: exactly its keys are reported, as written and nothing else, in the
      order of their bytes, which is the order of the writes; each item holds its value; and no other
      item changed. */
  lemma BundleWritten(config: Config, a: State, e: Event, b: State)
    requires Step(config, a, e, b) && !a.closed && e.op.OpSetBundle? && e.reply.outcome.None?
    ensures var OpSetBundle(profile, kv, overwrite) := e.op;
      && e.reply.res == Result(e.reply.res.written, [], [], [], [])
      && InByteOrder(e.reply.res.written) && (forall k :: k in e.reply.res.written <==> k in kv)
      && EndsInWrites(e.calls, profile, e.reply.res.written, overwrite)
      && (forall k :: k in kv ==> HasItem(b.m, profile, k) && b.m[profile + "/" + k] == kv[k])
      && forall itemKey :: (forall k :: k in kv ==> itemKey != ItemKey(profile, k)) ==> SameAt(a.m, b.m, itemKey)
  {
    hide TargetsScanned, Scanned, Less, NoFault, AllKeysValid;
    AscendingByBytes(e.reply.res.written);
  }

  /** A bundle that met existing targets: they are named, in the order of their bytes, and nothing
      was written. */
  lemma BundleConflict(config: Config, a: State, e: Event, b: State)
    requires Step(config, a, e, b) && !a.closed && e.op.OpSetBundle?
    requires e.reply.outcome.Some? && e.reply.outcome.value.Conflict?
    ensures b == a && !e.op.overwrite && e.reply.res == Result([], [], [], [], [])
    ensures var keys := e.reply.outcome.value.keys;
      && keys != [] && InByteOrder(keys)
      && forall k :: k in keys <==> k in e.op.kv && HasItem(a.m, e.op.profile, k)
    ensures forall c :: c in e.calls ==> !c.kind.SetCall? && !c.kind.DeleteCall?
  {
    hide TargetsScanned, Scanned, Less, NoFault, AllKeysValid;
    var keys := e.reply.outcome.value.keys;
    AscendingByBytes(keys);
    var k :| k in Existing(a.m, e.op.profile, e.op.kv.Keys);
    assert k in keys;
  }

  /** A bundle that was rolled back: every list is in the order of bytes, and the keys that were never
      tried are those after the failing one in that order, and with them the failing key exactly if
      someone else owned it. */
  lemma BundleRolledBack(allowlist: Allowlist, keeps: bool, calls: seq<Call>, a: Contents, b: Contents,
      profile: string, kv: map<string, string>, overwrite: bool, res: Result, err: Option<BundleError>)
    requires SetBundleOutcome(allowlist, keeps, calls, a, b, profile, kv, overwrite, res, err)
    requires err.Some? && err.value.WriteFailed?
    ensures var WriteFailed(failedKey, cause, lost) := err.value;
      && failedKey in kv && lost == res.rollbackFailed && res.written == []
      && InByteOrder(res.restored) && InByteOrder(res.absent) && InByteOrder(res.untouched) && InByteOrder(lost)
      && forall k :: k in res.untouched <==>
           k in kv && (ByteBefore(failedKey, k) || (k == failedKey && !overwrite && cause == AlreadyExists))
  {
    hide Less, ByteBefore, ForwardTried, UndoAttempted, LostHold, AgreeExcept, AllKeysValid;
    var failedKey := err.value.key;
    AscendingByBytes(res.restored);
    AscendingByBytes(res.absent);
    AscendingByBytes(res.untouched);
    AscendingByBytes(res.rollbackFailed);
    forall k ensures ByteBefore(failedKey, k) <==> Less(failedKey, k) { LessIsByteBefore(failedKey, k); }
    forall k ensures Less(failedKey, k) <==> k != failedKey && !Less(k, failedKey) { LessTrichotomy(failedKey, k); }
  }

  /** DeleteBundle without a failing call: every item of the profile is gone and its key reported, in
      the order of bytes; every other item is as it was. */
  lemma BundleDeleted(config: Config, a: State, e: Event, b: State)
    requires Step(config, a, e, b) && !a.closed && NoFault(e.calls)
    requires e.op.OpDeleteBundle? && Ref.ValidSegment(e.op.profile)
    ensures e.reply.failure == None && InByteOrder(e.reply.deleted)
    ensures forall k :: k in e.reply.deleted <==> HasItem(a.m, e.op.profile, k)
    ensures forall itemKey :: if e.op.profile + "/" <= itemKey then itemKey !in b.m else SameAt(a.m, b.m, itemKey)
  {
    hide DeleteBundleOutcome, BareKeys, Less, NoFault, InByteOrder;
    var profile, deleted := e.op.profile, e.reply.deleted;
    QuietDeleteEmpties(config.keeps, e.calls, a.m, b.m, profile, deleted, e.reply.failure);
    AscendingByBytes(deleted);
    forall k ensures k in deleted <==> HasItem(a.m, profile, k) { BareKeyStored(a.m, profile, k); }
    forall itemKey
      ensures if profile + "/" <= itemKey then itemKey !in b.m else SameAt(a.m, b.m, itemKey)
    {
      if Under(profile, itemKey) {
        BareKeyJoin(profile, itemKey);
        BareKeyStored(b.m, profile, BareKey(profile, itemKey));
      } else {
        DeleteTouchesOneProfile(config.keeps, e.calls, a.m, b.m, profile, deleted, e.reply.failure, itemKey);
      }
    }
  }
}
