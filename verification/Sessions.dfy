/** Clients over more than one store, and over the whole stack down to the Secret Service
    (credstore/store.go, credstore/osbackend_core.go, credstore/secretservice_core.go). */
module Sessions {
  import opened Text
  import opened Backend
  import opened Bundle
  import opened History
  import opened PairMap
  import opened Store
  import SecretService

  // ---------- closing and opening again ----------

  ghost predicate NeverCloses(ops: seq<Op>) {
    forall op :: op in ops ==> !op.OpClose?
  }

  lemma {:induction false} StaysOpen(events: seq<Event>, n: nat)
    requires n <= |events| && forall i :: 0 <= i < |events| ==> !events[i].op.OpClose?
    ensures OpenEvents(events, n) == n
  {
    if n > 0 { StaysOpen(events, n - 1); }
  }

  /** Two runs, the second from where the first ended, are one run. */
  lemma RunsJoin(config: Config, states: seq<State>, events: seq<Event>, states': seq<State>, events': seq<Event>)
    requires |states| == |events| + 1 && |states'| == |events'| + 1
    requires Run(config, states, events) && Run(config, states', events')
    requires states[|events|] == states'[0]
    ensures Run(config, states + states'[1..], events + events')
  {
    hide Step;
    var all, happened := states + states'[1..], events + events';
    forall i | 0 <= i < |happened| ensures Step(config, all[i], happened[i], all[i + 1]) {
      if i < |events| {
        assert Step(config, states[i], events[i], states[i + 1]);
      } else {
        assert Step(config, states'[i - |events|], events'[i - |events|], states'[i - |events| + 1]);
      }
    }
  }

  lemma {:induction false} AllCallsJoin(events: seq<Event>, events': seq<Event>)
    ensures AllCalls(events + events') == AllCalls(events) + AllCalls(events')
  {
    if events' == [] {
      assert events + events' == events;
    } else {
      var init, last := events'[..|events'| - 1], events'[|events'| - 1];
      assert (events + events')[..|events + events'| - 1] == events + init;
      AllCallsJoin(events, init);
      Regroup(AllCalls(events), AllCalls(init), last.calls);
    }
  }

  /** One session of a client over a keyring: open a store, use it, close it. */
  method Session(allowlist: Allowlist, be: AnyBackend, ops: seq<Op>)
    returns (replies: seq<Reply>, ghost states: seq<State>, ghost events: seq<Event>)
    requires be.Valid() && be.Os? && NeverCloses(ops)
    modifies be.Repr()
    ensures be.Valid() && be.Log() == old(be.Log()) + AllCalls(events)
    ensures |states| == |ops| + 1 && Run(Config(allowlist, be.Keeps()), states, events)
    ensures states[0] == State(false, old(be.Stored())) && states[|ops|] == State(false, be.Stored())
    ensures |replies| == |events| == |ops|
    ensures forall i :: 0 <= i < |ops| ==> events[i].op == ops[i] && events[i].reply == replies[i]
  {
    hide Step, AllCalls;
    var store := new Store(allowlist, be);
    replies, states, events := Execute(store, ops);
    forall i | 0 <= i < |events| ensures !events[i].op.OpClose? { assert ops[i] in ops; }
    StaysOpen(events, |events|);
    var _ := store.Close();
  }

  /** Credentials in a keyring outlive the store: closing a store and opening another one over the
      same keyring is not visible. The two sessions are one run of the abstract map, over the calls
      that the keyring adapter logged. */
  method TwoSessions(allowlist: Allowlist, be: AnyBackend, first: seq<Op>, second: seq<Op>)
    returns (replies: seq<Reply>, ghost states: seq<State>, ghost events: seq<Event>)
    requires be.Valid() && be.Os? && NeverCloses(first + second)
    modifies be.Repr()
    ensures be.Valid() && be.Log() == old(be.Log()) + AllCalls(events)
    ensures |states| == |first + second| + 1 && Run(Config(allowlist, be.Keeps()), states, events)
    ensures states[0] == State(false, old(be.Stored())) && states[|first + second|] == State(false, be.Stored())
    ensures |replies| == |events| == |first + second|
    ensures forall i :: 0 <= i < |events| ==> events[i].op == (first + second)[i] && events[i].reply == replies[i]
  {
    hide Run, AllCalls, AnyBackend.Valid, AnyBackend.Log, AnyBackend.Stored, AnyBackend.Keeps, AnyBackend.Repr;
    ghost var log := be.Log();
    NeverClosesJoin(first, second);
    var replies1;
    ghost var states1, events1;
    replies1, states1, events1 := Session(allowlist, be, first);
    var replies2;
    ghost var states2, events2;
    replies2, states2, events2 := Session(allowlist, be, second);
    RunsJoin(Config(allowlist, be.Keeps()), states1, events1, states2, events2);
    AllCallsJoin(events1, events2);
    Regroup(log, AllCalls(events1), AllCalls(events2));
    replies, states, events := replies1 + replies2, states1 + states2[1..], events1 + events2;
  }

  lemma NeverClosesJoin(first: seq<Op>, second: seq<Op>)
    requires NeverCloses(first + second)
    ensures NeverCloses(first) && NeverCloses(second)
  {
    forall op | op in first || op in second ensures !op.OpClose? { assert op in first + second; }
  }

  // ---------- the whole stack ----------

  lemma {:induction false} CallsOfEvents(events: seq<Event>, i: nat, c: Call)
    requires i < |events| && c in events[i].calls
    ensures c in AllCalls(events)
  {
    if i < |events| - 1 { CallsOfEvents(events[..|events| - 1], i, c); }
  }

  /** A store over the keyring adapter over the Secret Service: whatever a client does is a run that
      starts from what the collection of that name holds, in which a refused prompt is the only
      fault and changes nothing. If the user refuses no prompt of the run, every operation is that of
      the map from (profile, key) to value. */
  method OverSecretService(name: Bytes, service: SecretService.Service, allowlist: Allowlist, ops: seq<Op>)
    returns (replies: seq<Reply>, ghost states: seq<State>, ghost events: seq<Event>)
    requires service.Valid()
    modifies service
    ensures Run(Config(allowlist, true), states, events)
    ensures |replies| == |events| == |ops|
    ensures forall i :: 0 <= i < |ops| ==> events[i].op == ops[i] && events[i].reply == replies[i]
    ensures var own := if name == "" then "secret-service" else name;
      && states[0] == State(false, SecretService.Stored(old(service.collections), own))
      && SecretService.Stored(service.collections, own) == states[OpenEvents(events, |events|)].m
    ensures forall c :: c in AllCalls(events) && c.fault ==>
      && old(service.prompts) <= c.at < service.prompts && service.refused(c.at)
      && c.err == Some(Failure(REFUSED))
    ensures (forall n: nat :: old(service.prompts) <= n < service.prompts ==> !service.refused(n)) ==>
      forall i :: 0 <= i < |ops| ==>
        IdealStep(allowlist, IdealOf(states[i]), ops[i], replies[i], IdealOf(states[i + 1]))
  {
    hide IdealStep, IdealOf, Run, AllCalls, SecretService.FirstMatch, SecretService.PathMatches;
    var ss := new SecretService.SecretServiceBackend(name, service);
    var os := new OsKeyringBackend(Secrets(ss), name);
    var be := Os(os);
    var store := new Store(allowlist, be);
    replies, states, events := Execute(store, ops);
    assert be.Log() == [] + AllCalls(events) == AllCalls(events);
    if forall n: nat :: old(service.prompts) <= n < service.prompts ==> !service.refused(n) {
      forall i | 0 <= i < |events| ensures NoFault(events[i].calls) {
        forall c | c in events[i].calls ensures !c.fault { CallsOfEvents(events, i, c); }
      }
      RunRefines(Config(allowlist, true), states, events, |events|);
    }
  }
}
