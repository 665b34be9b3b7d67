/** Every operation of a store as a step of one abstract map, and what holds over whole runs of
    such steps (credstore/store.go, credstore/bundle.go). */
module History {
  import opened Text
  import Ref
  import opened Items
  import opened Backend
  import opened Bundle

  /** What never changes about a store: its allowlist, and whether a failed write or delete
      of one item changes nothing. */
  datatype Config = Config(allowlist: Allowlist, keeps: bool)

  datatype State = State(closed: bool, m: Contents)

  const CLOSED := State(true, map[])

  datatype Op =
    | OpGet(profile: string, key: string)
    | OpSet(profile: string, key: string, value: string, overwrite: bool)
    | OpDelete(profile: string, key: string)
    | OpExists(profile: string, key: string)
    | OpSetBundle(profile: string, kv: map<string, string>, overwrite: bool)
    | OpDeleteBundle(profile: string)
    | OpListBundle(profile: string)
    | OpListProfiles
    | OpClose

  datatype Reply =
    | Value(got: Fetched<string>)
    | Flag(found: Fetched<bool>)
    | Ack(err: Option<Error>)
    | Wrote(res: Result, outcome: Option<BundleError>)
    | Removed(deleted: seq<string>, failure: Option<BundleError>)
    | Listing(keys: Fetched<seq<string>>)

  /** An operation, its reply, and the backend calls it made. */
  datatype Event = Event(op: Op, reply: Reply, calls: seq<Call>)

  /** The operation made one backend call, which gave this error. */
  ghost predicate OneCall(calls: seq<Call>, kind: Kind, itemKey: string, err: Option<Error>) {
    |calls| == 1 && Describes(calls[0], kind, itemKey, err)
  }

  ghost predicate GetStep(a: State, profile: string, key: string, r: Fetched<string>, calls: seq<Call>) {
    if a.closed then r == Failed(StoreClosed) && calls == []
    else if JoinError(profile, key).Some? then r == Failed(JoinError(profile, key).value) && calls == []
    else
      && OneCall(calls, GetCall, ItemKey(profile, key), ErrorOf(r))
      && GetOutcome(a.m, ItemKey(profile, key), r)
      && (NoFault(calls) ==> r == GetVerdict(a.m, ItemKey(profile, key)))
  }

  ghost predicate ExistsStep(a: State, profile: string, key: string, r: Fetched<bool>, calls: seq<Call>) {
    if a.closed then r == Failed(StoreClosed) && calls == []
    else if JoinError(profile, key).Some? then r == Failed(JoinError(profile, key).value) && calls == []
    else
      && OneCall(calls, ExistsCall, ItemKey(profile, key), ErrorOf(r))
      && ExistsOutcome(a.m, ItemKey(profile, key), r)
      && (NoFault(calls) ==> r.Got?)
  }

  ghost predicate SetStep(config: Config, a: State, profile: string, key: string, value: string,
                          overwrite: bool, err: Option<Error>, calls: seq<Call>, b: State) {
    if a.closed then err == Some(StoreClosed) && b == a && calls == []
    else if WriteKeyError(config.allowlist, profile, key).Some? then
      err == WriteKeyError(config.allowlist, profile, key) && b == a && calls == []
    else
      && !b.closed
      && OneCall(calls, SetCall(overwrite), ItemKey(profile, key), err)
      && SetOutcome(a.m, b.m, ItemKey(profile, key), value, overwrite, err)
      && (config.keeps && err.Some? ==> b == a)
      && (NoFault(calls) ==> err == SetVerdict(a.m, ItemKey(profile, key), overwrite))
  }

  ghost predicate DeleteStep(config: Config, a: State, profile: string, key: string,
                             err: Option<Error>, calls: seq<Call>, b: State) {
    if a.closed then err == Some(StoreClosed) && b == a && calls == []
    else if WriteKeyError(config.allowlist, profile, key).Some? then
      err == WriteKeyError(config.allowlist, profile, key) && b == a && calls == []
    else
      && !b.closed
      && OneCall(calls, DeleteCall, ItemKey(profile, key), err)
      && DeleteOutcome(a.m, b.m, ItemKey(profile, key), err)
      && (config.keeps && err.Some? ==> b == a)
      && (NoFault(calls) ==> err == DeleteVerdict(a.m, ItemKey(profile, key)))
  }

  ghost predicate SetBundleStep(config: Config, a: State, profile: string, kv: map<string, string>, overwrite: bool,
                                res: Result, err: Option<BundleError>, calls: seq<Call>, b: State) {
    if a.closed then err == Some(Plain(StoreClosed)) && res == EMPTY && b == a && calls == []
    else
      && !b.closed
      && SetBundleOutcome(config.allowlist, config.keeps, calls, a.m, b.m, profile, kv, overwrite, res, err)
      && (calls != [] ==> TargetsScanned(calls, profile, kv, overwrite, res, err))
  }

  ghost predicate DeleteBundleStep(config: Config, a: State, profile: string, deleted: seq<string>,
                                   err: Option<BundleError>, calls: seq<Call>, b: State) {
    if a.closed then err == Some(Plain(StoreClosed)) && deleted == [] && b == a && calls == []
    else if ProfileError(profile).Some? then
      err == Some(Plain(ProfileError(profile).value)) && deleted == [] && b == a && calls == []
    else
      && !b.closed
      && DeleteBundleOutcome(config.keeps, calls, a.m, b.m, profile, deleted, err)
  }

  ghost predicate ListBundleStep(a: State, profile: string, r: Fetched<seq<string>>, calls: seq<Call>) {
    if a.closed then r == Failed(StoreClosed) && calls == []
    else if ProfileError(profile).Some? then r == Failed(ProfileError(profile).value) && calls == []
    else ListStep(r, BareKeys(a.m, profile), calls)
  }

  ghost predicate ListProfilesStep(a: State, r: Fetched<seq<string>>, calls: seq<Call>) {
    if a.closed then r == Failed(StoreClosed) && calls == []
    else ListStep(r, Profiles(a.m), calls)
  }

  ghost predicate ListStep(r: Fetched<seq<string>>, listed: set<string>, calls: seq<Call>) {
    && OneCall(calls, ListCall, "", ErrorOf(r))
    && (r.Got? ==> Enumerates(r.value, listed))
    && (NoFault(calls) ==> r.Got?)
  }

  ghost predicate Step(config: Config, a: State, e: Event, b: State) {
    match e.op
    case OpGet(profile, key) => e.reply.Value? && b == a && GetStep(a, profile, key, e.reply.got, e.calls)
    case OpExists(profile, key) => e.reply.Flag? && b == a && ExistsStep(a, profile, key, e.reply.found, e.calls)
    case OpSet(profile, key, value, overwrite) =>
      e.reply.Ack? && SetStep(config, a, profile, key, value, overwrite, e.reply.err, e.calls, b)
    case OpDelete(profile, key) => e.reply.Ack? && DeleteStep(config, a, profile, key, e.reply.err, e.calls, b)
    case OpSetBundle(profile, kv, overwrite) =>
      e.reply.Wrote? && SetBundleStep(config, a, profile, kv, overwrite, e.reply.res, e.reply.outcome, e.calls, b)
    case OpDeleteBundle(profile) =>
      e.reply.Removed? && DeleteBundleStep(config, a, profile, e.reply.deleted, e.reply.failure, e.calls, b)
    case OpListBundle(profile) => e.reply.Listing? && b == a && ListBundleStep(a, profile, e.reply.keys, e.calls)
    case OpListProfiles => e.reply.Listing? && b == a && ListProfilesStep(a, e.reply.keys, e.calls)
    case OpClose => e.reply == Ack(None) && b == CLOSED && e.calls == []
  }

  // ---------- one step ----------

  /** The item keys an operation may change. */
  ghost predicate Touches(op: Op, itemKey: string) {
    match op
    case OpSet(profile, key, _, _) => itemKey == ItemKey(profile, key)
    case OpDelete(profile, key) => itemKey == ItemKey(profile, key)
    case OpSetBundle(profile, kv, _) => itemKey in ItemKeys(profile, kv.Keys)
    case OpDeleteBundle(profile) => Under(profile, itemKey)
    case OpClose => true
    case _ => false
  }

  lemma BundleWriteFrame(config: Config, a: Contents, b: Contents, profile: string, kv: map<string, string>,
                         overwrite: bool, res: Result, err: Option<BundleError>, calls: seq<Call>)
    requires SetBundleOutcome(config.allowlist, config.keeps, calls, a, b, profile, kv, overwrite, res, err)
    ensures AgreeExcept(a, b, ItemKeys(profile, kv.Keys))
    ensures b != a ==> ProfileError(profile).None? && AllKeysValid(config.allowlist, profile, kv.Keys)
  {
    hide UndoAttempted, NoWrites, NoFault, EndsInFault;
  }

  lemma StepFrame(config: Config, a: State, e: Event, b: State, itemKey: string)
    requires Step(config, a, e, b) && !Touches(e.op, itemKey)
    ensures SameAt(a.m, b.m, itemKey) && b.closed == a.closed
  {
    hide SetBundleOutcome, DeleteBundleOutcome, GetStep, ExistsStep, ListStep, WriteKeyError, ProfileError, Under;
    match e.op {
      case OpSetBundle(profile, kv, overwrite) =>
        if b != a {
          BundleWriteFrame(config, a.m, b.m, profile, kv, overwrite, e.reply.res, e.reply.outcome, e.calls);
        }
      case OpDeleteBundle(profile) =>
        if b != a {
          DeleteTouchesOneProfile(config.keeps, e.calls, a.m, b.m, profile, e.reply.deleted, e.reply.failure, itemKey);
        }
      case _ =>
    }
  }

  /** The item of a valid profile and a key that the allowlist lets the store write. */
  ghost predicate Writable(allowlist: Allowlist, itemKey: string) {
    exists profile, key :: itemKey == profile + "/" + key && Ref.ValidSegment(profile) && MayWrite(allowlist, key)
  }

  /** A delete of this item failed. */
  ghost predicate FailedDelete(calls: seq<Call>, itemKey: string) {
    exists i :: 0 <= i < |calls| && FailedDeleteOf(calls[i], itemKey)
  }

  /** An item that a step leaves new or different is one the store may write, unless a failing
      delete of DeleteBundle, which asks no allowlist, did that to an item that was there. */
  lemma StepChangesOnlyWritable(config: Config, a: State, e: Event, b: State, itemKey: string)
    requires Step(config, a, e, b) && itemKey in b.m && !SameAt(a.m, b.m, itemKey)
    ensures Writable(config.allowlist, itemKey)
         || (itemKey in a.m && !config.keeps && e.op.OpDeleteBundle? && FailedDelete(e.calls, itemKey))
  {
    hide SetBundleOutcome, DeleteBundleOutcome, GetStep, ExistsStep, ListStep, WriteKeyError, FailedDelete;
    if !Touches(e.op, itemKey) {
      StepFrame(config, a, e, b, itemKey);
    } else if e.op.OpSetBundle? {
      BundleWriteFrame(config, a.m, b.m, e.op.profile, e.op.kv, e.op.overwrite, e.reply.res, e.reply.outcome, e.calls);
      var k :| k in e.op.kv && itemKey == ItemKey(e.op.profile, k);
      assert WriteKeyError(config.allowlist, e.op.profile, k).None?;
      WritableIff(config.allowlist, e.op.profile, k);
    } else if e.op.OpDeleteBundle? {
      DeleteBundleChanges(config.keeps, e.calls, a.m, b.m, e.op.profile, e.reply.deleted, e.reply.failure, itemKey);
    } else if e.op.OpSet? || e.op.OpDelete? {
      assert itemKey == ItemKey(e.op.profile, e.op.key);
      assert WriteKeyError(config.allowlist, e.op.profile, e.op.key).None?;
      WritableIff(config.allowlist, e.op.profile, e.op.key);
    }
  }

  lemma DeleteBundleChanges(keeps: bool, calls: seq<Call>, a: Contents, b: Contents, profile: string,
                            deleted: seq<string>, err: Option<BundleError>, itemKey: string)
    requires DeleteBundleOutcome(keeps, calls, a, b, profile, deleted, err)
    requires itemKey in b && !SameAt(a, b, itemKey)
    ensures itemKey in a && !keeps && FailedDelete(calls, itemKey)
  {
    hide DeletesAttempted, Enumerates, NoFault;
    if !Under(profile, itemKey) {
      DeleteTouchesOneProfile(keeps, calls, a, b, profile, deleted, err, itemKey);
    }
    BareKeyJoin(profile, itemKey);
    var key := BareKey(profile, itemKey);
    BareKeyStored(a, profile, key);
    BareKeyStored(b, profile, key);
    ItemKeyMember(profile, key, BareKeys(a, profile));
    assert err.Some? && err.value.DeleteFailed? && key in err.value.keys by {
      if err.None? { NothingLost(keeps, a, b, profile, deleted, key); }
      if err.Some? && err.value.DeleteFailed? { DeletedOrFailed(keeps, a, b, profile, deleted, err.value.keys, key); }
    }
    DeleteLeavesFailed(keeps, calls, a, b, profile, deleted, err);
  }

  lemma DeletedOrFailed(keeps: bool, a: Contents, b: Contents, profile: string,
                        deleted: seq<string>, failed: seq<string>, key: string)
    requires DeletedExactly(keeps, a, b, profile, BareKeys(a, profile), deleted, failed)
    requires ItemKey(profile, key) in b && key in BareKeys(a, profile)
    ensures key in failed
  {}

  lemma NothingLost(keeps: bool, a: Contents, b: Contents, profile: string, deleted: seq<string>, key: string)
    requires DeletedExactly(keeps, a, b, profile, BareKeys(a, profile), deleted, [])
    ensures key in BareKeys(a, profile) ==> ItemKey(profile, key) !in b
  {}

  // ---------- whole runs ----------

  ghost predicate Run(config: Config, states: seq<State>, events: seq<Event>) {
    && |states| == |events| + 1
    && forall i :: 0 <= i < |events| ==> Step(config, states[i], events[i], states[i + 1])
  }

  /** Over every run, under every pattern of failures: an item that is new or differs from its
      first state has a valid profile and a valid key of the allowlist, unless a delete of that
      very item by DeleteBundle failed; and where a failed delete changes nothing, always. */
  lemma {:induction false} OnlyWritableItemsChange(config: Config, states: seq<State>, events: seq<Event>,
      n: nat, itemKey: string)
    requires Run(config, states, events) && n < |states|
    requires itemKey in states[n].m && !Writable(config.allowlist, itemKey)
    ensures itemKey in states[0].m
    ensures || SameAt(states[0].m, states[n].m, itemKey)
            || (!config.keeps && exists i :: 0 <= i < n && Spoilt(events[i], itemKey))
  {
    hide Step, Writable, Spoilt;
    if n > 0 {
      var a, e, b := states[n - 1], events[n - 1], states[n];
      if !SameAt(a.m, b.m, itemKey) {
        StepChangesOnlyWritable(config, a, e, b, itemKey);
        SpoiltBy(e, itemKey);
      }
      OnlyWritableItemsChange(config, states, events, n - 1, itemKey);
    }
  }

  ghost predicate Spoilt(e: Event, itemKey: string) {
    e.op.OpDeleteBundle? && FailedDelete(e.calls, itemKey)
  }

  lemma SpoiltBy(e: Event, itemKey: string)
    ensures e.op.OpDeleteBundle? && FailedDelete(e.calls, itemKey) ==> Spoilt(e, itemKey)
  {}

  /** A run keeps a store of well-formed items one. */
  lemma WellFormedKept(config: Config, states: seq<State>, events: seq<Event>, n: nat)
    requires Run(config, states, events) && n < |states| && WellFormed(states[0].m)
    ensures WellFormed(states[n].m)
  {
    hide Run, WriteKeyError;
    forall ik | ik in states[n].m ensures WellFormedItem(ik) {
      if !Writable(config.allowlist, ik) {
        OnlyWritableItemsChange(config, states, events, n, ik);
      }
    }
  }

  /** Without a backend failure, ListBundle of this profile gave this reply. */
  ghost predicate Answered(config: Config, s: State, profile: string, reply: Fetched<seq<string>>) {
    exists calls :: NoFault(calls) && Step(config, s, Event(OpListBundle(profile), Listing(reply), calls), s)
  }

  ghost predicate Listed(profiles: seq<string>, replies: map<string, Fetched<seq<string>>>, profile: string,
      key: string)
  {
    profile in profiles && profile in replies && replies[profile].Got? && key in replies[profile].value
  }

  ghost predicate ListedTwice(profiles: seq<string>, replies: map<string, Fetched<seq<string>>>,
      p: string, k: string, q: string, l: string)
  {
    Listed(profiles, replies, p, k) && Listed(profiles, replies, q, l) && ItemKey(p, k) == ItemKey(q, l)
  }

  /** The listings partition the store: list the profiles, then each listed profile. No listing of
      a listed profile is refused or empty, every item is listed exactly once, as its key under its
      profile, and everything listed is an item. */
  lemma ListingsPartition(config: Config, s: State, profiles: seq<string>, calls: seq<Call>,
      replies: map<string, Fetched<seq<string>>>)
    requires !s.closed && WellFormed(s.m)
    requires Step(config, s, Event(OpListProfiles, Listing(Got(profiles)), calls), s)
    requires forall p :: p in profiles ==> p in replies && Answered(config, s, p, replies[p])
    ensures forall p :: p in profiles ==> replies[p].Got? && replies[p].value != []
    ensures forall ik :: ik in s.m ==> exists p, k :: Listed(profiles, replies, p, k) && ik == ItemKey(p, k)
    ensures forall p, k :: Listed(profiles, replies, p, k) ==> ItemKey(p, k) in s.m
    ensures forall p, k, q, l :: ListedTwice(profiles, replies, p, k, q, l) ==> p == q && k == l
  {
    hide NoFault, Describes, WellFormed, BareKeys, Profiles;
    forall p | p in profiles
      ensures replies[p].Got? && replies[p].value != [] && Enumerates(replies[p].value, BareKeys(s.m, p)) && '/' !in p
    {
      ProfilesAreValid(s.m, p);
      var k :| k in BareKeys(s.m, p);
      assert k in replies[p].value;
    }
    forall ik | ik in s.m ensures exists p, k :: Listed(profiles, replies, p, k) && ik == ItemKey(p, k) {
      var p, k := ItemIsListed(s.m, ik);
      assert Listed(profiles, replies, p, k);
    }
    forall p, k | Listed(profiles, replies, p, k) ensures ItemKey(p, k) in s.m {
      BareKeyStored(s.m, p, k);
    }
    forall p, k, q, l | ListedTwice(profiles, replies, p, k, q, l)
      ensures p == q && k == l
    {
      ItemKeyInjective(p, k, q, l);
    }
  }

  /** An item no operation of the run touches is the same at the end as at the start. */
  lemma {:induction false} UntouchedItemSurvives(config: Config, states: seq<State>, events: seq<Event>,
      from: nat, until: nat, itemKey: string)
    requires Run(config, states, events) && from <= until < |states|
    requires forall i :: from <= i < until ==> !Touches(events[i].op, itemKey)
    ensures SameAt(states[from].m, states[until].m, itemKey)
    ensures states[from].closed == states[until].closed
    decreases until
  {
    hide Step, Touches;
    if from < until {
      UntouchedItemSurvives(config, states, events, from, until - 1, itemKey);
      StepFrame(config, states[until - 1], events[until - 1], states[until], itemKey);
    }
  }

  ghost predicate Names(op: Op, profile: string) {
    (op.OpSet? || op.OpDelete? || op.OpSetBundle? || op.OpDeleteBundle?) && op.profile == profile
  }

  /** An operation under one valid profile cannot touch an item of another. */
  lemma OtherProfileUntouched(op: Op, profile: string, itemKey: string)
    requires '/' !in profile && Under(profile, itemKey)
    requires !Names(op, profile) && !op.OpClose?
    requires !op.OpListProfiles? ==> '/' !in op.profile
    ensures !Touches(op, itemKey)
  {
    BareKeyJoin(profile, itemKey);
    var key := BareKey(profile, itemKey);
    if op.OpSet? || op.OpDelete? {
      if itemKey == ItemKey(op.profile, op.key) { ItemKeyInjective(profile, key, op.profile, op.key); }
    } else if op.OpSetBundle? {
      forall k | k in op.kv ensures ItemKey(op.profile, k) != itemKey {
        if itemKey == ItemKey(op.profile, k) { ItemKeyInjective(profile, key, op.profile, k); }
      }
    } else if op.OpDeleteBundle? {
      if Under(op.profile, itemKey) {
        BareKeyJoin(op.profile, itemKey);
        ItemKeyInjective(profile, key, op.profile, BareKey(op.profile, itemKey));
      }
    }
  }

  lemma StepIsolates(config: Config, a: State, e: Event, b: State, profile: string, itemKey: string)
    requires Step(config, a, e, b)
    requires Ref.ValidSegment(profile) && Under(profile, itemKey)
    requires !Names(e.op, profile) && !e.op.OpClose?
    ensures SameAt(a.m, b.m, itemKey)
  {
    if !e.op.OpListProfiles? && '/' in e.op.profile {
      assert ProfileError(e.op.profile).Some?;
    } else {
      OtherProfileUntouched(e.op, profile, itemKey);
      StepFrame(config, a, e, b, itemKey);
    }
  }

  /** Profiles are isolated: a run of any operations, failing or not, none of which names a
      profile, leaves every item of that profile as it was. */
  lemma {:induction false} ProfileIsolation(config: Config, states: seq<State>, events: seq<Event>,
      n: nat, profile: string, itemKey: string)
    requires Run(config, states, events) && n < |states|
    requires Ref.ValidSegment(profile) && Under(profile, itemKey)
    requires forall i :: 0 <= i < n ==> !Names(events[i].op, profile) && !events[i].op.OpClose?
    ensures SameAt(states[0].m, states[n].m, itemKey)
  {
    hide Step, Names;
    if n > 0 {
      ProfileIsolation(config, states, events, n - 1, profile, itemKey);
      StepIsolates(config, states[n - 1], events[n - 1], states[n], profile, itemKey);
    }
  }

  /** The value an operation that succeeded stored at an item key. */
  ghost predicate Stores(e: Event, itemKey: string, value: string) {
    || (e.op.OpSet? && e.reply == Ack(None) && itemKey == ItemKey(e.op.profile, e.op.key) && value == e.op.value)
    || (e.op.OpSetBundle? && e.reply.Wrote? && e.reply.outcome.None?
        && exists k :: k in e.op.kv && itemKey == ItemKey(e.op.profile, k) && value == e.op.kv[k])
  }

  lemma StoredNow(config: Config, a: State, e: Event, b: State, itemKey: string, value: string)
    requires Step(config, a, e, b) && Stores(e, itemKey, value)
    ensures itemKey in b.m && b.m[itemKey] == value && !b.closed
  {}

  /** A value stored by Set or SetBundle is what Get returns until some later operation touches
      the item: Get gives that value, or reports a backend failure, and never NotFound. */
  lemma ReadYourWrites(config: Config, states: seq<State>, events: seq<Event>,
      wrote: nat, read: nat, profile: string, key: string, value: string)
    requires Run(config, states, events) && wrote < read < |events|
    requires Stores(events[wrote], ItemKey(profile, key), value)
    requires JoinError(profile, key).None?
    requires forall i :: wrote < i < read ==> !Touches(events[i].op, ItemKey(profile, key))
    requires events[read].op == OpGet(profile, key)
    ensures var reply := events[read].reply;
      && reply.Value? && (reply.got.Got? ==> reply.got.value == value) && reply != Value(Failed(NotFound))
      && (NoFault(events[read].calls) ==> reply == Value(Got(value)))
  {
    hide Touches, Stores;
    var itemKey := ItemKey(profile, key);
    assert Step(config, states[wrote], events[wrote], states[wrote + 1]);
    StoredNow(config, states[wrote], events[wrote], states[wrote + 1], itemKey, value);
    UntouchedItemSurvives(config, states, events, wrote + 1, read, itemKey);
    assert Step(config, states[read], events[read], states[read + 1]);
  }

  /** Closing is final: every later operation but another Close is refused, without a backend
      call. */
  lemma {:induction false} ClosedForGood(config: Config, states: seq<State>, events: seq<Event>, closed: nat, n: nat)
    requires Run(config, states, events) && closed < n < |events|
    requires events[closed].op == OpClose
    ensures states[n] == CLOSED && events[n].calls == []
    ensures match events[n].reply
      case Value(got) => got == Failed(StoreClosed)
      case Flag(found) => found == Failed(StoreClosed)
      case Ack(err) => err == Some(StoreClosed) || events[n].op == OpClose
      case Wrote(res, err) => err == Some(Plain(StoreClosed)) && res == Result([], [], [], [], [])
      case Removed(deleted, err) => err == Some(Plain(StoreClosed)) && deleted == []
      case Listing(keys) => keys == Failed(StoreClosed)
    decreases n
  {
    assert Step(config, states[closed], events[closed], states[closed + 1]);
    if n > closed + 1 {
      ClosedForGood(config, states, events, closed, n - 1);
      assert Step(config, states[n - 1], events[n - 1], states[n]);
    }
    assert Step(config, states[n], events[n], states[n + 1]);
  }
}
