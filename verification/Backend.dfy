/** The storage contract of credstore/store.go and its two implementations: the in-memory map
    (credstore/memory.go) and the adapter over a platform keyring (credstore/osbackend_core.go),
    be it one that fails as scripted or the Secret Service.
    Faults are scripts: total functions from the number of the call, so that a statement about
    every script is a statement about every pattern of failures. */
module Backend {
  import opened Text
  import opened Items
  import Ref
  import SecretService

  datatype Error =
    | StoreClosed
    | NotFound
    | AlreadyExists
    | InvalidRef(ref: Ref.RefError)
    | KeyNotAllowed(key: string, allowed: seq<string>)
    | Failure(code: int)  // any error that matches no sentinel

  // ---------- the contract ----------

  /** A failed set may have changed its own key, except that a no-overwrite AlreadyExists changed
      nothing. */
  ghost predicate SetOutcome(a: Contents, b: Contents, itemKey: string, value: string, overwrite: bool,
      err: Option<Error>)
  {
    match err
    case None => (overwrite || itemKey !in a) && b == a[itemKey := value]
    case Some(e) => AgreeExcept(a, b, {itemKey}) && (!overwrite && e.AlreadyExists? ==> b == a)
  }

  /** A failed delete may have changed its own key; NotFound is only said of a missing key. */
  ghost predicate DeleteOutcome(a: Contents, b: Contents, itemKey: string, err: Option<Error>) {
    match err
    case None => itemKey in a && b == a - {itemKey}
    case Some(e) => AgreeExcept(a, b, {itemKey}) && (e.NotFound? ==> itemKey !in a && b == a)
  }

  datatype Fetched<+T> = Got(value: T) | Failed(error: Error)

  ghost predicate GetOutcome(a: Contents, itemKey: string, r: Fetched<string>) {
    match r
    case Got(v) => itemKey in a && a[itemKey] == v
    case Failed(e) => e.NotFound? ==> itemKey !in a
  }

  ghost predicate ExistsOutcome(a: Contents, itemKey: string, r: Fetched<bool>) {
    r.Got? ==> (r.value <==> itemKey in a)
  }

  ghost predicate ListOutcome(a: Contents, r: Fetched<seq<string>>) {
    r.Got? ==> NoDuplicates(r.value) && forall k :: k in r.value <==> k in a
  }

  // ---------- calls and their faults ----------

  datatype Kind = GetCall | SetCall(overwrite: bool) | DeleteCall | ExistsCall | ListCall

  /** One call of a backend and the error it gave. A fault is an error that the backend's script
      injected, at number `at` of the script; any other error follows from what is stored. */
  datatype Call = Call(kind: Kind, itemKey: string, err: Option<Error>, fault: bool, at: nat)

  function ErrorOf<T>(r: Fetched<T>): Option<Error> {
    if r.Failed? then Some(r.error) else None
  }

  ghost predicate Describes(call: Call, kind: Kind, itemKey: string, err: Option<Error>) {
    call.kind == kind && call.itemKey == itemKey && call.err == err && (call.fault ==> err.Some?)
  }

  /** What a call says when no fault gets in its way. */
  ghost function GetVerdict(m: Contents, itemKey: string): Fetched<string> {
    if itemKey in m then Got(m[itemKey]) else Failed(NotFound)
  }

  ghost function SetVerdict(m: Contents, itemKey: string, overwrite: bool): Option<Error> {
    if !overwrite && itemKey in m then Some(AlreadyExists) else None
  }

  ghost function DeleteVerdict(m: Contents, itemKey: string): Option<Error> {
    if itemKey in m then None else Some(NotFound)
  }

  ghost predicate NoFault(calls: seq<Call>) {
    forall c :: c in calls ==> !c.fault
  }

  ghost predicate NoWrites(calls: seq<Call>) {
    forall c :: c in calls ==> !c.kind.SetCall? && !c.kind.DeleteCall?
  }

  /** The number of faults among some calls. */
  ghost function Faults(calls: seq<Call>): nat {
    if calls == [] then 0 else Faults(calls[..|calls| - 1]) + if calls[|calls| - 1].fault then 1 else 0
  }

  lemma {:induction false} FaultsConcat(a: seq<Call>, b: seq<Call>)
    ensures Faults(a + b) == Faults(a) + Faults(b)
  {
    if b == [] {
      assert a + b == a;
    } else {
      assert (a + b)[..|a + b| - 1] == a + b[..|b| - 1];
      FaultsConcat(a, b[..|b| - 1]);
    }
  }

  lemma {:induction false} NoFaultCounts(calls: seq<Call>)
    ensures NoFault(calls) <==> Faults(calls) == 0
  {
    if calls != [] {
      var init := calls[..|calls| - 1];
      NoFaultCounts(init);
      assert calls == init + [calls[|calls| - 1]];
    }
  }

  // ---------- memory ----------

  /** The atomic map. The hooks are the test seams that make a mutation fail before it happens;
      a delete hook must not claim NotFound, since it is asked only about keys that exist. */
  class MemoryBackend {
    var m: map<string, string>
    var open: bool
    var calls: nat
    const setHook: (nat, string) -> Option<Error>
    const deleteHook: (nat, string) -> Option<Error>
    ghost var log: seq<Call>

    ghost predicate Valid()
      reads this
    {
      && (!open ==> m == map[])
      && (forall n, k :: deleteHook(n, k) != Some(NotFound))
      && forall c :: c in log ==> Scripted(c)
    }

    /** A fault is what a hook said. */
    ghost predicate Scripted(call: Call) {
      call.fault ==>
        && call.err.Some?
        && ((call.kind.SetCall? && call.err == setHook(call.at, call.itemKey))
            || (call.kind.DeleteCall? && call.err == deleteHook(call.at, call.itemKey)))
    }

    /** No hook ever fires. */
    ghost predicate Quiet() {
      forall n, k :: setHook(n, k) == None && deleteHook(n, k) == None
    }

    constructor (setHook: (nat, string) -> Option<Error>, deleteHook: (nat, string) -> Option<Error>)
      requires forall n, k :: deleteHook(n, k) != Some(NotFound)
      ensures Valid() && open && m == map[] && log == []
      ensures this.setHook == setHook && this.deleteHook == deleteHook
    {
      m, open, calls, log := map[], true, 0, [];
      this.setHook, this.deleteHook := setHook, deleteHook;
    }

    ghost method Record(call: Call)
      requires Valid() && Scripted(call)
      modifies `log
      ensures Valid() && log == old(log) + [call]
    {
      log := log + [call];
    }

    method Get(itemKey: string) returns (r: Fetched<string>, ghost call: Call)
      requires Valid()
      modifies `log
      ensures Valid() && log == old(log) + [call]
      ensures call == Call(GetCall, itemKey, ErrorOf(r), false, calls)
      ensures r == if open then GetVerdict(m, itemKey) else Failed(StoreClosed)
    {
      if !open {
        r := Failed(StoreClosed);
      } else if itemKey !in m {
        r := Failed(NotFound);
      } else {
        r := Got(m[itemKey]);
      }
      call := Call(GetCall, itemKey, ErrorOf(r), false, calls);
      Record(call);
    }

    method Set(itemKey: string, value: string, overwrite: bool) returns (err: Option<Error>, ghost call: Call)
      requires Valid()
      modifies this
      ensures Valid() && open == old(open) && log == old(log) + [call]
      ensures calls == old(calls) + if open then 1 else 0
      ensures var injected := if open then setHook(old(calls), itemKey) else None;
        && call == Call(SetCall(overwrite), itemKey, err, injected.Some?, old(calls))
        && err == if !open then Some(StoreClosed)
                  else if injected.Some? then injected
                  else SetVerdict(old(m), itemKey, overwrite)
      ensures m == if err.None? then old(m)[itemKey := value] else old(m)
    {
      ghost var number := calls;
      var injected: Option<Error> := None;
      if !open {
        err := Some(StoreClosed);
      } else {
        injected := setHook(calls, itemKey);
        calls := calls + 1;
        if injected.Some? {
          err := injected;
        } else if !overwrite && itemKey in m {
          err := Some(AlreadyExists);
        } else {
          m := m[itemKey := value];
          err := None;
        }
      }
      call := Call(SetCall(overwrite), itemKey, err, injected.Some?, number);
      Record(call);
    }

    method Delete(itemKey: string) returns (err: Option<Error>, ghost call: Call)
      requires Valid()
      modifies this
      ensures Valid() && open == old(open) && log == old(log) + [call]
      ensures calls == old(calls) + if open && itemKey in old(m) then 1 else 0
      ensures var injected := if open && itemKey in old(m) then deleteHook(old(calls), itemKey) else None;
        && call == Call(DeleteCall, itemKey, err, injected.Some?, old(calls))
        && err == if !open then Some(StoreClosed)
                  else if injected.Some? then injected
                  else DeleteVerdict(old(m), itemKey)
      ensures m == if err.None? then old(m) - {itemKey} else old(m)
    {
      ghost var number := calls;
      var injected: Option<Error> := None;
      if !open {
        err := Some(StoreClosed);
      } else if itemKey !in m {
        err := Some(NotFound);
      } else {
        injected := deleteHook(calls, itemKey);
        calls := calls + 1;
        err := injected;
        if injected.None? {
          m := m - {itemKey};
        }
      }
      call := Call(DeleteCall, itemKey, err, injected.Some?, number);
      Record(call);
    }

    method Exists(itemKey: string) returns (r: Fetched<bool>, ghost call: Call)
      requires Valid()
      modifies `log
      ensures Valid() && log == old(log) + [call]
      ensures call == Call(ExistsCall, itemKey, ErrorOf(r), false, calls)
      ensures r == if open then Got(itemKey in m) else Failed(StoreClosed)
    {
      if !open {
        r := Failed(StoreClosed);
      } else {
        r := Got(itemKey in m);
      }
      call := Call(ExistsCall, itemKey, ErrorOf(r), false, calls);
      Record(call);
    }

    method List() returns (r: Fetched<seq<string>>, ghost call: Call)
      requires Valid()
      modifies `log
      ensures Valid() && log == old(log) + [call]
      ensures call == Call(ListCall, "", ErrorOf(r), false, calls)
      ensures ListOutcome(m, r)
      ensures if open then r.Got? else r == Failed(StoreClosed)
    {
      if !open {
        r := Failed(StoreClosed);
      } else {
        var keys := ListKeys(m);
        r := Got(keys);
      }
      call := Call(ListCall, "", ErrorOf(r), false, calls);
      Record(call);
    }

    method Close()
      requires Valid()
      modifies this
      ensures Valid() && !open && m == map[] && log == old(log)
    {
      if !open {
        return;
      }
      var rest := m.Keys;
      while rest != {}
        invariant rest <= m.Keys && open && Valid() && log == old(log)
        decreases rest
      {
        var k :| k in rest;
        m := m[k := ""];
        rest := rest - {k};
      }
      m, open := map[], false;
    }
  }

  // ---------- platform keyring ----------

  datatype Item = Item(key: string, data: string, itemLabel: string, description: string)

  ghost function DataOf(items: map<string, Item>): Contents {
    map k | k in items :: items[k].data
  }

  datatype KeyringError = ItemNotFound | MetadataUnsupported | Broken(code: int)

  /** What a failing call leaves behind at its own key. */
  datatype Effect = Untouched | Erased | Garbled(item: Item)

  datatype Fault = Healthy | Fails(code: int, effect: Effect)

  /** A consistent keyring: apart from scripted failures it is a map from key to item, and it says
      not-found of missing keys only. */
  class Keyring {
    var items: map<string, Item>
    var calls: nat
    const script: nat -> Fault
    const hasMetadata: bool

    constructor (items: map<string, Item>, script: nat -> Fault, hasMetadata: bool)
      ensures this.items == items && this.script == script && this.hasMetadata == hasMetadata && calls == 0
    {
      this.items, this.calls, this.script, this.hasMetadata := items, 0, script, hasMetadata;
    }

    method Next() returns (fault: Fault)
      modifies this`calls
      ensures fault == script(old(calls)) && calls == old(calls) + 1
    {
      fault := script(calls);
      calls := calls + 1;
    }

    /** The error of a lookup that met the given fault. */
    ghost function Lookup(fault: Fault, itemKey: string): Option<KeyringError>
      reads this
    {
      if fault.Fails? then Some(Broken(fault.code)) else if itemKey in items then None else Some(ItemNotFound)
    }

    method Get(itemKey: string) returns (item: Item, err: Option<KeyringError>)
      modifies this`calls
      ensures calls == old(calls) + 1 && err == Lookup(script(old(calls)), itemKey)
      ensures err.None? ==> item == items[itemKey]
    {
      item := Item(itemKey, "", "", "");
      var fault := Next();
      if fault.Fails? {
        return item, Some(Broken(fault.code));
      }
      if itemKey !in items {
        return item, Some(ItemNotFound);
      }
      return items[itemKey], None;
    }

    method Metadata(itemKey: string) returns (err: Option<KeyringError>)
      modifies this`calls
      ensures hasMetadata ==> calls == old(calls) + 1 && err == Lookup(script(old(calls)), itemKey)
      ensures !hasMetadata ==> calls == old(calls) && err == Some(MetadataUnsupported)
    {
      if !hasMetadata {
        return Some(MetadataUnsupported);
      }
      var _, e := Get(itemKey);
      return e;
    }

    method SetItem(item: Item) returns (err: Option<KeyringError>)
      modifies this
      ensures calls == old(calls) + 1
      ensures var fault := script(old(calls));
        err == if fault.Fails? then Some(Broken(fault.code)) else None
      ensures err.None? ==> items == old(items)[item.key := item]
      ensures items - {item.key} == old(items) - {item.key}
    {
      var fault := Next();
      if fault.Fails? {
        Leave(item.key, fault.effect);
        return Some(Broken(fault.code));
      }
      items := items[item.key := item];
      return None;
    }

    method Remove(itemKey: string) returns (err: Option<KeyringError>)
      modifies this
      ensures calls == old(calls) + 1 && err == old(Lookup(script(calls), itemKey))
      ensures err.None? ==> items == old(items) - {itemKey}
      ensures err == Some(ItemNotFound) ==> items == old(items)
      ensures items - {itemKey} == old(items) - {itemKey}
    {
      var fault := Next();
      if fault.Fails? {
        Leave(itemKey, fault.effect);
        return Some(Broken(fault.code));
      }
      if itemKey !in items {
        return Some(ItemNotFound);
      }
      items := items - {itemKey};
      return None;
    }

    method Leave(itemKey: string, effect: Effect)
      modifies this`items
      ensures items - {itemKey} == old(items) - {itemKey}
    {
      match effect
      case Untouched =>
      case Erased => items := items - {itemKey};
      case Garbled(item) => items := items[itemKey := item];
    }

    method Keys() returns (keys: seq<string>, err: Option<KeyringError>)
      modifies this`calls
      ensures calls == old(calls) + 1
      ensures var fault := script(old(calls));
        err == if fault.Fails? then Some(Broken(fault.code)) else None
      ensures err.None? ==> NoDuplicates(keys) && forall k :: k in keys <==> k in items
    {
      var fault := Next();
      if fault.Fails? {
        return [], Some(Broken(fault.code));
      }
      keys := ListKeys(items);
      return keys, None;
    }
  }

  /** The `keyringBackend` interface: a call goes to a keyring that fails as scripted or to the Secret
      Service, where a failure is a prompt that the user refuses. The clock counts keyring calls or
      prompts; a call that meets no failure answers as what is stored decides. */
  datatype AnyKeyring = Platform(kr: Keyring) | Secrets(ss: SecretService.SecretServiceBackend) {
    ghost function Repr(): set<object> {
      match this
      case Platform(k) => {k}
      case Secrets(b) => {b, b.service}
    }

    ghost predicate Valid()
      reads Repr()
    {
      Secrets? ==> ss.Valid()
    }

    ghost function Stored(): Contents
      reads Repr()
    {
      match this
      case Platform(k) => DataOf(k.items)
      case Secrets(b) => b.Abs()
    }

    ghost function Clock(): nat
      reads Repr()
    {
      match this
      case Platform(k) => k.calls
      case Secrets(b) => b.service.prompts
    }

    ghost predicate Fails(n: nat) {
      match this
      case Platform(k) => k.script(n).Fails?
      case Secrets(b) => b.service.refused(n)
    }

    ghost function CodeAt(n: nat): int
      requires Fails(n)
    {
      match this
      case Platform(k) => k.script(n).code
      case Secrets(_) => REFUSED
    }

    /** A failing call changes nothing, not even its own item. */
    ghost predicate Keeps() {
      Secrets?
    }

    ghost predicate HasMetadata() {
      match this
      case Platform(k) => k.hasMetadata
      case Secrets(_) => true
    }

    /** The answer of a call made when the clock was `start`. */
    ghost predicate Answers(start: nat, err: Option<KeyringError>, verdict: Option<KeyringError>)
      reads Repr()
    {
      && start <= Clock() <= start + 1 && (Platform? ==> Clock() == start + 1)
      && err == if start < Clock() && Fails(start) then Some(Broken(CodeAt(start))) else verdict
    }

    ghost function Lookup(itemKey: string): Option<KeyringError>
      reads Repr()
    {
      if itemKey in Stored() then None else Some(ItemNotFound)
    }

    method Get(itemKey: string) returns (item: Item, err: Option<KeyringError>)
      requires Valid()
      modifies Repr()
      ensures Valid() && Stored() == old(Stored())
      ensures Answers(old(Clock()), err, Lookup(itemKey))
      ensures err.None? ==> item.data == Stored()[itemKey]
    {
      match this
      case Platform(k) => item, err := k.Get(itemKey);
      case Secrets(b) =>
        var r := b.Get(itemKey);
        item := Item(itemKey, if r.Is? then r.value else "", "", "");
        err := if r.Is? then None else Some(RefusalError(r.reason));
    }

    method Metadata(itemKey: string) returns (err: Option<KeyringError>)
      requires Valid()
      modifies Repr()
      ensures Valid() && Stored() == old(Stored())
      ensures HasMetadata() ==> Answers(old(Clock()), err, Lookup(itemKey))
      ensures !HasMetadata() ==> Clock() == old(Clock()) && err == Some(MetadataUnsupported)
    {
      match this
      case Platform(k) => err := k.Metadata(itemKey);
      case Secrets(b) =>
        var found := b.Metadata(itemKey);
        err := if found then None else Some(ItemNotFound);
    }

    method SetItem(item: Item) returns (err: Option<KeyringError>)
      requires Valid()
      modifies Repr()
      ensures Valid() && Answers(old(Clock()), err, None)
      ensures err.None? ==> Stored() == old(Stored())[item.key := item.data]
      ensures err.None? && Platform? ==> kr.items == old(kr.items)[item.key := item]
      ensures AgreeExcept(old(Stored()), Stored(), {item.key})
      ensures Keeps() && err.Some? ==> Stored() == old(Stored())
    {
      hide SecretService.FirstMatch, SecretService.OthersKept;
      match this
      case Platform(k) =>
        ghost var before := k.items;
        err := k.SetItem(item);
        ItemsAgree(before, k.items, item.key);
      case Secrets(b) =>
        var refusal := b.Set(item.key, item.data);
        err := if refusal.None? then None else Some(RefusalError(refusal.value));
    }

    method Remove(itemKey: string) returns (err: Option<KeyringError>)
      requires Valid()
      modifies Repr()
      ensures Valid() && Answers(old(Clock()), err, old(Lookup(itemKey)))
      ensures err.None? ==> Stored() == old(Stored()) - {itemKey}
      ensures err == Some(ItemNotFound) ==> Stored() == old(Stored())
      ensures AgreeExcept(old(Stored()), Stored(), {itemKey})
      ensures Keeps() && err.Some? ==> Stored() == old(Stored())
    {
      hide SecretService.FirstMatch, SecretService.OthersKept;
      match this
      case Platform(k) =>
        ghost var before := k.items;
        err := k.Remove(itemKey);
        ItemsAgree(before, k.items, itemKey);
      case Secrets(b) =>
        var refusal := b.Remove(itemKey);
        err := if refusal.None? then None else Some(RefusalError(refusal.value));
    }

    method Keys() returns (keys: seq<string>, err: Option<KeyringError>)
      requires Valid()
      modifies Repr()
      ensures Valid() && Stored() == old(Stored())
      ensures Answers(old(Clock()), err, None)
      ensures err.None? ==> NoDuplicates(keys) && forall k :: k in keys <==> k in Stored()
    {
      match this
      case Platform(k) => keys, err := k.Keys();
      case Secrets(b) =>
        var r := b.Keys();
        keys := if r.Is? then r.value else [];
        err := if r.Is? then None else Some(RefusalError(r.reason));
    }
  }

  const REFUSED := 1

  function RefusalError(reason: SecretService.Refusal): KeyringError {
    match reason
    case NoSuchItem => ItemNotFound
    case PromptRefused => Broken(REFUSED)
  }

  lemma ItemsAgree(a: map<string, Item>, b: map<string, Item>, itemKey: string)
    requires a - {itemKey} == b - {itemKey}
    ensures AgreeExcept(DataOf(a), DataOf(b), {itemKey})
  {
    forall k | k !in {itemKey} ensures SameAt(DataOf(a), DataOf(b), k) {
      assert k in a <==> k in a - {itemKey};
      assert k in b <==> k in b - {itemKey};
      assert k in b ==> (b - {itemKey})[k] == b[k];
    }
  }

  function ItemForWrite(service: string, itemKey: string, value: string): Item {
    Item(itemKey, value, service + " " + itemKey, "Credential for " + service + " " + itemKey)
  }

  class OsKeyringBackend {
    const kr: AnyKeyring
    const service: string
    ghost const started: nat
    ghost var log: seq<Call>

    /** Every logged fault is a failure of the keyring at some time since the adapter was made. */
    ghost predicate Valid()
      reads this, kr.Repr()
    {
      && kr.Valid() && started <= kr.Clock()
      && forall c :: c in log ==> Scripted(c) && (c.fault ==> started <= c.at < kr.Clock())
    }

    /** A fault is a failure of the keyring, passed on. */
    ghost predicate Scripted(call: Call) {
      call.fault ==> kr.Fails(call.at) && call.err == Some(Failure(kr.CodeAt(call.at)))
    }

    /** The call is a fault exactly when something failed in the keyring since `start`. */
    ghost predicate Accounts(start: nat, call: Call)
      reads kr.Repr()
    {
      && (call.fault ==> start <= call.at < kr.Clock())
      && forall i :: start <= i < kr.Clock() && kr.Fails(i) ==> call.fault
    }

    constructor (kr: AnyKeyring, service: string)
      requires kr.Valid()
      ensures Valid() && log == [] && this.kr == kr && this.service == service && started == kr.Clock()
    {
      this.kr, this.service, this.log, this.started := kr, service, [], kr.Clock();
    }

    ghost function Stored(): Contents
      reads kr.Repr()
    {
      kr.Stored()
    }

    /** A platform keyring holds the value under the item key, labelled for whoever looks into it. */
    ghost predicate Labelled(itemKey: string, value: string)
      reads kr.Repr()
    {
      kr.Platform? ==>
        && itemKey in kr.kr.items
        && kr.kr.items[itemKey].key == itemKey && kr.kr.items[itemKey].data == value
        && kr.kr.items[itemKey].itemLabel == service + " " + itemKey
        && kr.kr.items[itemKey].description == "Credential for " + service + " " + itemKey
    }

    /** Logs a call whose last keyring call was made at `since`; if that failed, its failure is what
        the caller sees. */
    ghost method Record(kind: Kind, itemKey: string, err: Option<Error>, since: nat) returns (call: Call)
      requires Valid() && started <= since
      requires var failed := since < kr.Clock() && kr.Fails(since);
        failed ==> err == Some(Failure(kr.CodeAt(since)))
      modifies `log
      ensures call == Call(kind, itemKey, err, since < kr.Clock() && kr.Fails(since), since)
      ensures Valid() && log == old(log) + [call]
    {
      call := Call(kind, itemKey, err, since < kr.Clock() && kr.Fails(since), since);
      log := log + [call];
    }

    method Get(itemKey: string) returns (r: Fetched<string>, ghost call: Call)
      requires Valid()
      modifies kr.Repr(), `log
      ensures Valid() && Stored() == old(Stored())
      ensures log == old(log) + [call] && Describes(call, GetCall, itemKey, ErrorOf(r))
      ensures Accounts(old(kr.Clock()), call)
      ensures if call.fault then r.Failed? && r.error.Failure? else r == GetVerdict(Stored(), itemKey)
    {
      hide AnyKeyring.Valid, AnyKeyring.Stored, AnyKeyring.Clock, AnyKeyring.Fails;
      ghost var start := kr.Clock();
      var item, err := kr.Get(itemKey);
      match err {
        case Some(ItemNotFound) => r := Failed(NotFound);
        case Some(Broken(code)) => r := Failed(Failure(code));
        case Some(MetadataUnsupported) => assert false;
        case None => r := Got(item.data);
      }
      call := Record(GetCall, itemKey, ErrorOf(r), start);
    }

    /** Get then set: the keyring has no compare-and-swap. A lookup that failed has written
        nothing. */
    method Set(itemKey: string, value: string, overwrite: bool) returns (err: Option<Error>, ghost call: Call)
      requires Valid()
      modifies kr.Repr(), `log
      ensures Valid() && log == old(log) + [call] && Describes(call, SetCall(overwrite), itemKey, err)
      ensures Accounts(old(kr.Clock()), call)
      ensures if call.fault then err.Some? && err.value.Failure?
              else err == SetVerdict(old(Stored()), itemKey, overwrite)
      ensures SetOutcome(old(Stored()), Stored(), itemKey, value, overwrite, err)
      ensures err.None? ==> Labelled(itemKey, value)
      ensures !overwrite && call.fault && call.at == old(kr.Clock()) ==> Stored() == old(Stored())
      ensures kr.Keeps() && err.Some? ==> Stored() == old(Stored())
    {
      hide AnyKeyring.Valid, AnyKeyring.Stored, AnyKeyring.Clock, AnyKeyring.Fails;
      hide AgreeExcept;
      ghost var start := kr.Clock();
      if !overwrite {
        var _, found := kr.Get(itemKey);
        if found != Some(ItemNotFound) {
          err := Refused(found);
          AgreesWithItself(Stored(), {itemKey});
          call := Record(SetCall(overwrite), itemKey, err, start);
          return;
        }
      }
      start := kr.Clock();
      err := Write(itemKey, value);
      call := Record(SetCall(overwrite), itemKey, err, start);
    }

    /** The write proper; a failing one may have changed its own item. */
    method Write(itemKey: string, value: string) returns (err: Option<Error>)
      requires Valid()
      modifies kr.Repr()
      ensures Valid() && old(kr.Clock()) <= kr.Clock() <= old(kr.Clock()) + 1
      ensures var start := old(kr.Clock());
        err == if start < kr.Clock() && kr.Fails(start) then Some(Failure(kr.CodeAt(start))) else None
      ensures err.None? ==> Stored() == old(Stored())[itemKey := value]
      ensures err.None? ==> Labelled(itemKey, value)
      ensures AgreeExcept(old(Stored()), Stored(), {itemKey})
      ensures kr.Keeps() && err.Some? ==> Stored() == old(Stored())
    {
      hide AnyKeyring.Valid, AnyKeyring.Stored, AnyKeyring.Clock, AnyKeyring.Fails;
      var e := kr.SetItem(ItemForWrite(service, itemKey, value));
      if e.Some? {
        return Some(Failure(e.value.code));
      }
      return None;
    }

    /** The answer of a no-overwrite set whose lookup did not say not-found. */
    static function Refused(found: Option<KeyringError>): Option<Error>
      requires found != Some(ItemNotFound) && found != Some(MetadataUnsupported)
    {
      if found.None? then Some(AlreadyExists) else Some(Failure(found.value.code))
    }

    method Delete(itemKey: string) returns (err: Option<Error>, ghost call: Call)
      requires Valid()
      modifies kr.Repr(), `log
      ensures Valid() && log == old(log) + [call] && Describes(call, DeleteCall, itemKey, err)
      ensures Accounts(old(kr.Clock()), call)
      ensures if call.fault then err.Some? && err.value.Failure? else err == DeleteVerdict(old(Stored()), itemKey)
      ensures DeleteOutcome(old(Stored()), Stored(), itemKey, err)
      ensures kr.Keeps() && err.Some? ==> Stored() == old(Stored())
    {
      hide AnyKeyring.Valid, AnyKeyring.Stored, AnyKeyring.Clock, AnyKeyring.Fails;
      ghost var start := kr.Clock();
      var e := kr.Remove(itemKey);
      match e {
        case None => err := None;
        case Some(ItemNotFound) => err := Some(NotFound);
        case Some(Broken(code)) => err := Some(Failure(code));
        case Some(MetadataUnsupported) => assert false;
      }
      call := Record(DeleteCall, itemKey, err, start);
    }

    method Exists(itemKey: string) returns (r: Fetched<bool>, ghost call: Call)
      requires Valid()
      modifies kr.Repr(), `log
      ensures Valid() && Stored() == old(Stored())
      ensures log == old(log) + [call] && Describes(call, ExistsCall, itemKey, ErrorOf(r))
      ensures Accounts(old(kr.Clock()), call)
      ensures if call.fault then r.Failed? else r == Got(itemKey in Stored())
    {
      hide AnyKeyring.Valid, AnyKeyring.Stored, AnyKeyring.Clock, AnyKeyring.Fails;
      ghost var start := kr.Clock();
      var err := kr.Metadata(itemKey);
      if err == Some(MetadataUnsupported) {
        var _, e := kr.Get(itemKey);
        err := e;
      }
      match err {
        case None => r := Got(true);
        case Some(ItemNotFound) => r := Got(false);
        case Some(Broken(code)) => r := Failed(Failure(code));
        case Some(MetadataUnsupported) => assert false;
      }
      call := Record(ExistsCall, itemKey, ErrorOf(r), start);
    }

    method List() returns (r: Fetched<seq<string>>, ghost call: Call)
      requires Valid()
      modifies kr.Repr(), `log
      ensures Valid() && Stored() == old(Stored())
      ensures log == old(log) + [call] && Describes(call, ListCall, "", ErrorOf(r))
      ensures Accounts(old(kr.Clock()), call)
      ensures ListOutcome(Stored(), r) && (call.fault <==> r.Failed?)
    {
      hide AnyKeyring.Valid, AnyKeyring.Stored, AnyKeyring.Clock, AnyKeyring.Fails;
      ghost var start := kr.Clock();
      var keys, err := kr.Keys();
      match err {
        case None => r := Got(keys);
        case Some(Broken(code)) => r := Failed(Failure(code));
        case Some(_) => assert false;
      }
      call := Record(ListCall, "", ErrorOf(r), start);
    }

    /** A keyring has nothing to release. */
    method Close()
      requires Valid()
      ensures Valid()
    {}
  }

  // ---------- the interface ----------

  /** The `backend` interface: a call goes to whichever implementation is behind it. */
  datatype AnyBackend = Memory(mem: MemoryBackend) | Os(os: OsKeyringBackend) {
    ghost function Repr(): set<object> {
      match this
      case Memory(b) => {b}
      case Os(b) => {b} + b.kr.Repr()
    }

    ghost function Stored(): Contents
      reads Repr()
    {
      match this
      case Memory(b) => b.m
      case Os(b) => b.Stored()
    }

    ghost predicate Valid()
      reads Repr()
    {
      match this
      case Memory(b) => b.Valid() && b.open
      case Os(b) => b.Valid()
    }

    /** Every call so far, in order. */
    ghost function Log(): seq<Call>
      reads Repr()
    {
      match this
      case Memory(b) => b.log
      case Os(b) => b.log
    }

    /** No scripted failure anywhere. */
    ghost predicate Quiet() {
      match this
      case Memory(b) => b.Quiet()
      case Os(b) => forall n :: !b.kr.Fails(n)
    }

    /** A failing write or delete of one item changes nothing. */
    ghost predicate Keeps() {
      match this
      case Memory(_) => true
      case Os(b) => b.kr.Keeps()
    }

    /** Where nothing is scripted to fail, no call is a fault. */
    lemma QuietLog(calls: seq<Call>)
      requires Valid() && Quiet() && calls <= Log()
      ensures NoFault(calls)
    {
      forall c | c in calls ensures !c.fault {
        assert c in Log();
      }
    }

    method Get(itemKey: string) returns (r: Fetched<string>, ghost call: Call)
      requires Valid()
      modifies Repr()
      ensures Valid() && Stored() == old(Stored()) && Log() == old(Log()) + [call]
      ensures Describes(call, GetCall, itemKey, ErrorOf(r))
      ensures GetOutcome(Stored(), itemKey, r)
      ensures !call.fault ==> r == GetVerdict(Stored(), itemKey)
    {
      match this
      case Memory(b) => r, call := b.Get(itemKey);
      case Os(b) => r, call := b.Get(itemKey);
    }

    method Set(itemKey: string, value: string, overwrite: bool) returns (err: Option<Error>, ghost call: Call)
      requires Valid()
      modifies Repr()
      ensures Valid() && Log() == old(Log()) + [call]
      ensures Describes(call, SetCall(overwrite), itemKey, err)
      ensures SetOutcome(old(Stored()), Stored(), itemKey, value, overwrite, err)
      ensures Keeps() && err.Some? ==> Stored() == old(Stored())
      ensures !call.fault ==> err == SetVerdict(old(Stored()), itemKey, overwrite)
    {
      match this
      case Memory(b) => err, call := b.Set(itemKey, value, overwrite);
      case Os(b) => err, call := b.Set(itemKey, value, overwrite);
    }

    method Delete(itemKey: string) returns (err: Option<Error>, ghost call: Call)
      requires Valid()
      modifies Repr()
      ensures Valid() && Log() == old(Log()) + [call]
      ensures Describes(call, DeleteCall, itemKey, err)
      ensures DeleteOutcome(old(Stored()), Stored(), itemKey, err)
      ensures Keeps() && err.Some? ==> Stored() == old(Stored())
      ensures if call.fault then err != Some(NotFound) else err == DeleteVerdict(old(Stored()), itemKey)
    {
      match this
      case Memory(b) => err, call := b.Delete(itemKey);
      case Os(b) => err, call := b.Delete(itemKey);
    }

    method Exists(itemKey: string) returns (r: Fetched<bool>, ghost call: Call)
      requires Valid()
      modifies Repr()
      ensures Valid() && Stored() == old(Stored()) && Log() == old(Log()) + [call]
      ensures Describes(call, ExistsCall, itemKey, ErrorOf(r))
      ensures ExistsOutcome(Stored(), itemKey, r)
      ensures call.fault <==> r.Failed?
    {
      match this
      case Memory(b) => r, call := b.Exists(itemKey);
      case Os(b) => r, call := b.Exists(itemKey);
    }

    method List() returns (r: Fetched<seq<string>>, ghost call: Call)
      requires Valid()
      modifies Repr()
      ensures Valid() && Stored() == old(Stored()) && Log() == old(Log()) + [call]
      ensures Describes(call, ListCall, "", ErrorOf(r))
      ensures ListOutcome(Stored(), r)
      ensures call.fault <==> r.Failed?
    {
      match this
      case Memory(b) => r, call := b.List();
      case Os(b) => r, call := b.List();
    }

    /** Clears the memory backend; a keyring has nothing to release. */
    method Close()
      requires Valid()
      modifies Repr()
      ensures Os? ==> Valid() && Stored() == old(Stored())
      ensures Log() == old(Log())
    {
      match this
      case Memory(b) => b.Close();
      case Os(b) => b.Close();
    }
  }
}
