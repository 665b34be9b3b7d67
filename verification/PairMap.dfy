/** What a store is for: a map from (profile, key) to value. While no backend call fails, every
    operation of a store is the operation of that map, and two stores that hold the same pairs
    cannot be told apart, whatever backends they use (credstore/store.go, credstore/bundle.go). */
module PairMap {
  import opened Text
  import opened Items
  import opened Backend
  import opened Bundle
  import opened History

  type PairValues = map<(string, string), string>

  datatype Ideal = Ideal(closed: bool, pairs: PairValues)

  ghost function IdealOf(s: State): Ideal {
    Ideal(s.closed, View(s.m))
  }

  ghost function KeysUnder(v: PairValues, profile: string): set<string> {
    set pair | pair in v && pair.0 == profile :: pair.1
  }

  ghost function ProfilesIn(v: PairValues): set<string> {
    set pair | pair in v :: pair.0
  }

  ghost function Targets(v: PairValues, profile: string, keys: set<string>): set<string> {
    set k | k in keys && (profile, k) in v
  }

  ghost predicate BundlePut(v: PairValues, w: PairValues, profile: string, kv: map<string, string>) {
    w == v + map k | k in kv :: (profile, k) := kv[k]
  }

  ghost predicate BundleGone(v: PairValues, w: PairValues, profile: string) {
    w == map pair | pair in v && pair.0 != profile :: v[pair]
  }

  /** The reply that refuses an operation with an error. */
  function Refusal(op: Op, e: Error): Reply {
    match op
    case OpGet(_, _) => Value(Failed(e))
    case OpExists(_, _) => Flag(Failed(e))
    case OpSet(_, _, _, _) => Ack(Some(e))
    case OpDelete(_, _) => Ack(Some(e))
    case OpSetBundle(_, _, _) => Wrote(EMPTY, Some(Plain(e)))
    case OpDeleteBundle(_) => Removed([], Some(Plain(e)))
    case OpListBundle(_) => Listing(Failed(e))
    case OpListProfiles => Listing(Failed(e))
    case OpClose => Ack(None)
  }

  /** The error of an operation whose arguments are malformed or not allowed. */
  ghost predicate BadArgument(allowlist: Allowlist, op: Op, e: Error) {
    match op
    case OpGet(profile, key) => JoinError(profile, key) == Some(e)
    case OpExists(profile, key) => JoinError(profile, key) == Some(e)
    case OpSet(profile, key, _, _) => WriteKeyError(allowlist, profile, key) == Some(e)
    case OpDelete(profile, key) => WriteKeyError(allowlist, profile, key) == Some(e)
    case OpSetBundle(profile, kv, _) =>
      || ProfileError(profile) == Some(e)
      || (ProfileError(profile).None? && BadBundleKey(allowlist, profile, kv.Keys, e))
    case OpDeleteBundle(profile) => ProfileError(profile) == Some(e)
    case OpListBundle(profile) => ProfileError(profile) == Some(e)
    case OpListProfiles => false
    case OpClose => false
  }

  ghost predicate BadBundleKey(allowlist: Allowlist, profile: string, keys: set<string>, e: Error) {
    exists bad :: FirstBadKey(allowlist, profile, keys, bad) && WriteKeyError(allowlist, profile, bad) == Some(e)
  }

  /** What a well-formed operation does to the pairs and what it replies. */
  ghost predicate Effective(v: PairValues, op: Op, reply: Reply, w: PairValues) {
    match op
    case OpGet(profile, key) =>
      w == v && reply == Value(if (profile, key) in v then Got(v[(profile, key)]) else Failed(NotFound))
    case OpExists(profile, key) => w == v && reply == Flag(Got((profile, key) in v))
    case OpSet(profile, key, value, overwrite) =>
      if !overwrite && (profile, key) in v then w == v && reply == Ack(Some(AlreadyExists))
      else w == v[(profile, key) := value] && reply == Ack(None)
    case OpDelete(profile, key) =>
      if (profile, key) in v then w == v - {(profile, key)} && reply == Ack(None)
      else w == v && reply == Ack(Some(NotFound))
    case OpSetBundle(profile, kv, overwrite) => BundleWritten(v, profile, kv, overwrite, reply, w)
    case OpDeleteBundle(profile) =>
      && reply.Removed? && reply.failure.None?
      && Enumerates(reply.deleted, KeysUnder(v, profile)) && BundleGone(v, w, profile)
    case OpListBundle(profile) =>
      w == v && reply.Listing? && reply.keys.Got? && Enumerates(reply.keys.value, KeysUnder(v, profile))
    case OpListProfiles =>
      w == v && reply.Listing? && reply.keys.Got? && Enumerates(reply.keys.value, ProfilesIn(v))
    case OpClose => false
  }

  ghost predicate BundleWritten(v: PairValues, profile: string, kv: map<string, string>, overwrite: bool,
                                reply: Reply, w: PairValues) {
    var there := Targets(v, profile, kv.Keys);
    && reply.Wrote?
    && if !overwrite && there != {} then
         && w == v && reply.res == EMPTY && reply.outcome.Some? && reply.outcome.value.Conflict?
         && Enumerates(reply.outcome.value.keys, there)
       else
         && BundlePut(v, w, profile, kv) && reply.outcome.None?
         && reply.res == EMPTY.(written := reply.res.written) && Enumerates(reply.res.written, kv.Keys)
  }

  ghost predicate IdealStep(allowlist: Allowlist, a: Ideal, op: Op, reply: Reply, b: Ideal) {
    if op.OpClose? then b == Ideal(true, map[]) && reply == Ack(None)
    else if a.closed then b == a && reply == Refusal(op, StoreClosed)
    else if exists e :: BadArgument(allowlist, op, e) then b == a && BadReply(allowlist, op, reply)
    else !b.closed && Effective(a.pairs, op, reply, b.pairs)
  }

  ghost predicate BadReply(allowlist: Allowlist, op: Op, reply: Reply) {
    exists e :: BadArgument(allowlist, op, e) && reply == Refusal(op, e)
  }

  // ---------- the view of each operation ----------

  lemma KeysUnderView(m: Contents, profile: string)
    requires profile != "" && '/' !in profile
    ensures KeysUnder(View(m), profile) == BareKeys(m, profile)
  {
    hide View;
    forall k ensures k in KeysUnder(View(m), profile) <==> k in BareKeys(m, profile) {
      ViewLookup(m, profile, k);
      BareKeyStored(m, profile, k);
      assert k in KeysUnder(View(m), profile) <==> (profile, k) in View(m);
    }
  }

  lemma ProfilesInView(m: Contents)
    ensures ProfilesIn(View(m)) == Profiles(m)
  {
    forall p | p in ProfilesIn(View(m)) ensures p in Profiles(m) {
      var pair :| pair in View(m) && pair.0 == p;
      var ik :| ik in m && ProfileOf(ik).Some? && PairOf(ik) == pair;
    }
    forall p | p in Profiles(m) ensures p in ProfilesIn(View(m)) {
      var ik :| ik in m && ProfileOf(ik) == Some(p);
      assert PairOf(ik) in View(m);
    }
  }

  lemma TargetsInView(m: Contents, profile: string, keys: set<string>)
    requires profile != "" && '/' !in profile
    ensures Targets(View(m), profile, keys) == Existing(m, profile, keys)
  {
    hide View;
    forall k ensures (profile, k) in View(m) <==> ItemKey(profile, k) in m { ViewLookup(m, profile, k); }
  }

  /** A pair whose item key holds the same in two stores is the same in both views. */
  lemma ViewSame(m: Contents, n: Contents, pair: (string, string))
    requires pair.0 != "" && '/' !in pair.0 ==> SameAt(m, n, ItemKey(pair.0, pair.1))
    ensures pair in View(m) <==> pair in View(n)
    ensures pair in View(m) ==> View(m)[pair] == View(n)[pair]
  {
    PairsStored(m);
    PairsStored(n);
    if pair.0 != "" && '/' !in pair.0 {
      ViewLookup(m, pair.0, pair.1);
      ViewLookup(n, pair.0, pair.1);
    }
  }

  lemma ViewOfWritten(a: Contents, b: Contents, profile: string, kv: map<string, string>)
    requires profile != "" && '/' !in profile && AllWritten(a, b, profile, kv)
    ensures BundlePut(View(a), View(b), profile, kv)
  {
    hide View, Under;
    var put := map k | k in kv :: (profile, k) := kv[k];
    var v, w := View(a), View(b);
    forall pair: (string, string) ensures pair in w <==> pair in v + put
      ensures pair in w ==> w[pair] == (v + put)[pair]
    {
      if pair.0 == profile && pair.1 in kv {
        ViewLookup(b, profile, pair.1);
        assert pair == (profile, pair.1) && pair in put;
      } else {
        assert pair !in put;
        if pair.0 != "" && '/' !in pair.0 {
          OtherItem(pair.0, pair.1, profile, kv.Keys);
          assert SameAt(a, b, ItemKey(pair.0, pair.1));
        }
        ViewSame(a, b, pair);
      }
    }
    assert w == v + put;
  }

  lemma OtherItem(p: string, k: string, profile: string, keys: set<string>)
    requires '/' !in p && '/' !in profile && !(p == profile && k in keys)
    ensures ItemKey(p, k) !in ItemKeys(profile, keys)
  {
    if ItemKey(p, k) in ItemKeys(profile, keys) {
      var l :| l in keys && ItemKey(profile, l) == ItemKey(p, k);
      ItemKeyInjective(p, k, profile, l);
    }
  }

  lemma ViewOfDeleted(keeps: bool, a: Contents, b: Contents, profile: string, deleted: seq<string>)
    requires profile != "" && '/' !in profile
    requires DeletedExactly(keeps, a, b, profile, BareKeys(a, profile), deleted, [])
    ensures BundleGone(View(a), View(b), profile)
  {
    hide View, Under, DeletedExactly;
    EmptyAfterDelete(keeps, a, b, profile, BareKeys(a, profile), deleted);
    var v, w := View(a), View(b);
    forall pair: (string, string) ensures pair in w <==> pair in v && pair.0 != profile
      ensures pair in w ==> w[pair] == v[pair]
    {
      if pair.0 == profile {
        ViewLookup(b, profile, pair.1);
        BareKeyStored(b, profile, pair.1);
        assert pair == (profile, pair.1);
      } else {
        if pair.0 != "" && '/' !in pair.0 {
          OtherItem(pair.0, pair.1, profile, BareKeys(a, profile));
          DeletedElsewhere(keeps, a, b, profile, deleted, ItemKey(pair.0, pair.1));
        }
        ViewSame(a, b, pair);
      }
    }
    assert w == map pair | pair in v && pair.0 != profile :: v[pair];
  }

  lemma DeletedElsewhere(keeps: bool, a: Contents, b: Contents, profile: string, deleted: seq<string>, itemKey: string)
    requires DeletedExactly(keeps, a, b, profile, BareKeys(a, profile), deleted, [])
    requires itemKey !in ItemKeys(profile, BareKeys(a, profile))
    ensures SameAt(a, b, itemKey)
  {}

  // ---------- refinement ----------

  lemma ReadRefines(config: Config, a: State, e: Event, b: State)
    requires Step(config, a, e, b) && NoFault(e.calls) && !a.closed
    requires e.op.OpGet? || e.op.OpExists? || e.op.OpListBundle? || e.op.OpListProfiles?
    requires forall err :: !BadArgument(config.allowlist, e.op, err)
    ensures !b.closed && Effective(View(a.m), e.op, e.reply, View(b.m))
  {
    hide View, NoFault, Describes;
    if e.op.OpListProfiles? {
      ProfilesInView(a.m);
    } else if e.op.OpListBundle? {
      var err := ProfileError(e.op.profile);
      assert err.Some? ==> BadArgument(config.allowlist, e.op, err.value);
      KeysUnderView(a.m, e.op.profile);
    } else {
      var err := JoinError(e.op.profile, e.op.key);
      assert err.Some? ==> BadArgument(config.allowlist, e.op, err.value);
      ViewLookup(a.m, e.op.profile, e.op.key);
    }
  }

  lemma ItemRefines(config: Config, a: State, e: Event, b: State)
    requires Step(config, a, e, b) && NoFault(e.calls) && !a.closed && (e.op.OpSet? || e.op.OpDelete?)
    requires forall err :: !BadArgument(config.allowlist, e.op, err)
    ensures !b.closed && Effective(View(a.m), e.op, e.reply, View(b.m))
  {
    hide View, NoFault, Describes;
    var profile, key := e.op.profile, e.op.key;
    var err := WriteKeyError(config.allowlist, profile, key);
    assert err.Some? ==> BadArgument(config.allowlist, e.op, err.value);
    StoreIsMapOfPairs(a.m, profile, key, if e.op.OpSet? then e.op.value else "");
    if e.reply.err.Some? { SameEverywhereElse(a.m, b.m, ItemKey(profile, key)); }
  }

  lemma SameEverywhereElse(a: Contents, b: Contents, itemKey: string)
    requires AgreeExcept(a, b, {itemKey}) && SameAt(a, b, itemKey)
    ensures a == b
  {
    forall k ensures SameAt(a, b, k) {}
    SameEverywhere(a, b);
  }

  lemma SetBundleRefines(config: Config, a: State, e: Event, b: State)
    requires Step(config, a, e, b) && NoFault(e.calls) && !a.closed && e.op.OpSetBundle?
    requires forall err :: !BadArgument(config.allowlist, e.op, err)
    ensures !b.closed && Effective(View(a.m), e.op, e.reply, View(b.m))
  {
    hide View, NoFault, NoWrites, RolledBack, UndoAttempted;
    hide EndsInFault, AllWritten, WriteKeyError, ProfileError, BundlePut;
    var OpSetBundle(profile, kv, overwrite) := e.op;
    GoodBundle(config.allowlist, e.op);
    TargetsInView(a.m, profile, kv.Keys);
    if kv == map[] {
      NothingPut(View(a.m), profile);
    } else {
      assert ValidBundleOutcome(config.keeps, e.calls, a.m, b.m, profile, kv, overwrite, e.reply.res, e.reply.outcome);
      NotFaulty(e.calls, a.m, profile, kv, overwrite, e.reply.outcome);
      if e.reply.outcome.None? { ViewOfWritten(a.m, b.m, profile, kv); }
    }
  }

  lemma NothingPut(v: PairValues, profile: string)
    ensures BundlePut(v, v, profile, map[])
  {}

  lemma BadKeyIsBad(allowlist: Allowlist, op: Op, bad: string)
    requires op.OpSetBundle? && ProfileError(op.profile).None? && FirstBadKey(allowlist, op.profile, op.kv.Keys, bad)
    ensures BadArgument(allowlist, op, WriteKeyError(allowlist, op.profile, bad).value)
  {
    hide WriteKeyError;
  }

  /** A bundle with no bad argument has a valid profile and valid keys. */
  lemma GoodBundle(allowlist: Allowlist, op: Op)
    requires op.OpSetBundle? && forall err :: !BadArgument(allowlist, op, err)
    ensures ProfileError(op.profile).None? && op.profile != "" && '/' !in op.profile
    ensures AllKeysValid(allowlist, op.profile, op.kv.Keys)
  {
    hide WriteKeyError;
    var err := ProfileError(op.profile);
    assert err.Some? ==> BadArgument(allowlist, op, err.value);
    if !AllKeysValid(allowlist, op.profile, op.kv.Keys) {
      var bad := FirstBad(allowlist, op.profile, op.kv.Keys);
      BadKeyIsBad(allowlist, op, bad);
    }
  }

  /** Among keys of which some are bad, one is the first. */
  lemma {:induction false} FirstBad(allowlist: Allowlist, profile: string, keys: set<string>) returns (bad: string)
    requires !AllKeysValid(allowlist, profile, keys)
    ensures FirstBadKey(allowlist, profile, keys, bad)
    decreases keys
  {
    hide WriteKeyError, Less;
    bad :| bad in keys && WriteKeyError(allowlist, profile, bad).Some?;
    LessTrichotomy(bad, bad);
    var smaller := set k | k in keys && Less(k, bad);
    if !AllKeysValid(allowlist, profile, smaller) {
      assert bad !in smaller;
      var first := FirstBad(allowlist, profile, smaller);
      forall k | k in keys && Less(k, first) ensures WriteKeyError(allowlist, profile, k).None? {
        LessTransitive(k, first, bad);
      }
      bad := first;
    }
  }

  /** Without a fault a bundle write neither rolls back nor stops at a backend error. */
  lemma NotFaulty(calls: seq<Call>, a: Contents, profile: string, kv: map<string, string>, overwrite: bool,
                  err: Option<BundleError>)
    requires NoFault(calls)
    ensures err.Some? && err.value.Plain? ==> !EndsInFault(calls, err.value.error)
    ensures err.Some? && err.value.WriteFailed? ==>
      !UndoAttempted(calls, a, profile, kv, overwrite, err.value.key, err.value.cause, err.value.rollbackFailed)
  {
    hide Attempts, Enumerates, Existing;
  }

  lemma DeleteBundleRefines(config: Config, a: State, e: Event, b: State)
    requires Step(config, a, e, b) && NoFault(e.calls) && !a.closed && e.op.OpDeleteBundle?
    requires forall err :: !BadArgument(config.allowlist, e.op, err)
    ensures !b.closed && Effective(View(a.m), e.op, e.reply, View(b.m))
  {
    hide View, NoFault, DeletedExactly, BundleGone;
    var profile, deleted := e.op.profile, e.reply.deleted;
    var err := ProfileError(profile);
    assert err.Some? ==> BadArgument(config.allowlist, e.op, err.value);
    KeysUnderView(a.m, profile);
    QuietDeleteEmpties(config.keeps, e.calls, a.m, b.m, profile, deleted, e.reply.failure);
    ViewOfDeleted(config.keeps, a.m, b.m, profile, deleted);
  }

  lemma BadArgumentRefused(config: Config, a: State, e: Event, b: State, err: Error)
    requires Step(config, a, e, b) && !a.closed && BadArgument(config.allowlist, e.op, err)
    ensures b == a && BadReply(config.allowlist, e.op, e.reply)
  {
    hide WriteKeyError, ProfileError, JoinError, GetOutcome;
    hide SetOutcome, DeleteOutcome, ValidBundleOutcome, DeleteBundleOutcome;
    if e.op.OpSetBundle? && ProfileError(e.op.profile).None? {
      var profile, kv := e.op.profile, e.op.kv;
      var bad :| FirstBadKey(config.allowlist, profile, kv.Keys, bad);
      assert kv != map[] && !AllKeysValid(config.allowlist, profile, kv.Keys);
      var found :| FirstBadKey(config.allowlist, profile, kv.Keys, found)
        && e.reply.outcome == Some(Plain(WriteKeyError(config.allowlist, profile, found).value));
      BadKeyIsBad(config.allowlist, e.op, found);
      RefusedWith(config.allowlist, e.op, e.reply, WriteKeyError(config.allowlist, profile, found).value);
    } else {
      RefusedWith(config.allowlist, e.op, e.reply, err);
    }
  }

  lemma RefusedWith(allowlist: Allowlist, op: Op, reply: Reply, err: Error)
    requires BadArgument(allowlist, op, err) && reply == Refusal(op, err)
    ensures BadReply(allowlist, op, reply)
  {}

  /** While no backend call fails, a store is the map from pairs: each operation on the item keys
      is the operation on the pairs, with the same reply. */
  lemma StepRefines(config: Config, a: State, e: Event, b: State)
    requires Step(config, a, e, b) && NoFault(e.calls) && (a.closed ==> a == CLOSED)
    ensures IdealStep(config.allowlist, IdealOf(a), e.op, e.reply, IdealOf(b))
    ensures b.closed ==> b == CLOSED
  {
    hide Effective, BadArgument, BadReply;
    if e.op.OpClose? || a.closed {
      ClosedRefines(config, a, e, b);
    } else if exists err :: BadArgument(config.allowlist, e.op, err) {
      var err :| BadArgument(config.allowlist, e.op, err);
      BadArgumentRefused(config, a, e, b, err);
    } else if e.op.OpSetBundle? {
      SetBundleRefines(config, a, e, b);
    } else if e.op.OpDeleteBundle? {
      DeleteBundleRefines(config, a, e, b);
    } else if e.op.OpSet? || e.op.OpDelete? {
      ItemRefines(config, a, e, b);
    } else {
      ReadRefines(config, a, e, b);
    }
  }

  lemma ClosedRefines(config: Config, a: State, e: Event, b: State)
    requires Step(config, a, e, b) && (e.op.OpClose? || a == CLOSED)
    ensures IdealStep(config.allowlist, IdealOf(a), e.op, e.reply, IdealOf(b)) && b == CLOSED
  {
    hide Effective, BadArgument, BadReply, SetBundleOutcome, DeleteBundleOutcome, GetOutcome, SetOutcome, DeleteOutcome,
      WriteKeyError, JoinError, ProfileError;
    assert View(map[]) == map[];
  }

  // ---------- whole runs ----------

  ghost predicate FaultFree(events: seq<Event>) {
    forall i :: 0 <= i < |events| ==> NoFault(events[i].calls)
  }

  /** A run in which no backend call fails is a run of the map from pairs. */
  lemma {:induction false} RunRefines(config: Config, states: seq<State>, events: seq<Event>, n: nat)
    requires Run(config, states, events) && FaultFree(events) && n <= |events|
    requires states[0].closed ==> states[0] == CLOSED
    ensures states[n].closed ==> states[n] == CLOSED
    ensures forall i :: 0 <= i < n ==>
      IdealStep(config.allowlist, IdealOf(states[i]), events[i].op, events[i].reply, IdealOf(states[i + 1]))
  {
    hide Step, IdealStep, IdealOf, NoFault;
    if n > 0 {
      RunRefines(config, states, events, n - 1);
      StepRefines(config, states[n - 1], events[n - 1], states[n]);
    }
  }

  /** The map from pairs leaves nothing open: state and arguments fix the reply and the new state. */
  lemma IdealDeterministic(allowlist: Allowlist, a: Ideal, op: Op, reply: Reply, b: Ideal, reply': Reply, b': Ideal)
    requires IdealStep(allowlist, a, op, reply, b) && IdealStep(allowlist, a, op, reply', b')
    ensures reply == reply' && b == b'
  {
    hide Effective, BadArgument;
    if op.OpClose? || a.closed {
    } else if exists e :: BadArgument(allowlist, op, e) {
      var e :| BadArgument(allowlist, op, e) && reply == Refusal(op, e);
      var e' :| BadArgument(allowlist, op, e') && reply' == Refusal(op, e');
      OneBadArgument(allowlist, op, e, e');
    } else {
      EffectDeterministic(a.pairs, op, reply, b.pairs, reply', b'.pairs);
    }
  }

  lemma OneBadArgument(allowlist: Allowlist, op: Op, e: Error, e': Error)
    requires BadArgument(allowlist, op, e) && BadArgument(allowlist, op, e')
    ensures e == e'
  {
    hide JoinError, WriteKeyError, ProfileError;
    if op.OpSetBundle? && ProfileError(op.profile).None? {
      var bad :| FirstBadKey(allowlist, op.profile, op.kv.Keys, bad)
        && WriteKeyError(allowlist, op.profile, bad) == Some(e);
      var bad' :| FirstBadKey(allowlist, op.profile, op.kv.Keys, bad')
        && WriteKeyError(allowlist, op.profile, bad') == Some(e');
      LessTrichotomy(bad, bad');
    }
  }

  lemma EffectDeterministic(v: PairValues, op: Op, reply: Reply, w: PairValues, reply': Reply, w': PairValues)
    requires Effective(v, op, reply, w) && Effective(v, op, reply', w')
    ensures reply == reply' && w == w'
  {
    hide Enumerates;
    match op
    case OpDeleteBundle(profile) => EnumerationUnique(reply.deleted, reply'.deleted, KeysUnder(v, profile));
    case OpListBundle(profile) => EnumerationUnique(reply.keys.value, reply'.keys.value, KeysUnder(v, profile));
    case OpListProfiles => EnumerationUnique(reply.keys.value, reply'.keys.value, ProfilesIn(v));
    case OpSetBundle(profile, kv, overwrite) =>
      if !overwrite && Targets(v, profile, kv.Keys) != {} {
        EnumerationUnique(reply.outcome.value.keys, reply'.outcome.value.keys, Targets(v, profile, kv.Keys));
      } else {
        EnumerationUnique(reply.res.written, reply'.res.written, kv.Keys);
      }
    case _ =>
  }

  /** Backends are interchangeable: two stores with one allowlist that start with the same pairs
      and meet no backend failure give the same replies to the same operations, and hold the same
      pairs ever after. */
  lemma {:induction false} BackendsIndistinguishable(config: Config, states: seq<State>, events: seq<Event>,
      config': Config, states': seq<State>, events': seq<Event>, n: nat)
    requires Run(config, states, events) && Run(config', states', events') && config.allowlist == config'.allowlist
    requires FaultFree(events) && FaultFree(events') && n <= |events| == |events'|
    requires forall i :: 0 <= i < |events| ==> events[i].op == events'[i].op
    requires IdealOf(states[0]) == IdealOf(states'[0])
    requires states[0].closed ==> states[0] == CLOSED == states'[0]
    ensures IdealOf(states[n]) == IdealOf(states'[n])
    ensures forall i :: 0 <= i < n ==> events[i].reply == events'[i].reply
    ensures OnlyBundles(states[n].m) && OnlyBundles(states'[n].m) ==> states[n].m == states'[n].m
  {
    hide Step, IdealStep, NoFault, View;
    if n > 0 {
      BackendsIndistinguishable(config, states, events, config', states', events', n - 1);
      RunRefines(config, states, events, n);
      RunRefines(config', states', events', n);
      IdealDeterministic(config.allowlist, IdealOf(states[n - 1]), events[n - 1].op,
        events[n - 1].reply, IdealOf(states[n]), events'[n - 1].reply, IdealOf(states'[n]));
    }
    if OnlyBundles(states[n].m) && OnlyBundles(states'[n].m) { ViewDetermines(states[n].m, states'[n].m); }
  }
}
