/** The Secret Service keyring (credstore/secretservice_core.go): finding the collection by its
    escaped path, and reading and writing items behind collection and item locks. */
module SecretService {
  import opened Text
  import Hex
  import opened Items

  // ---------- paths ----------

  const COLLECTIONS: Bytes := "/org/freedesktop/secrets/collection/"

  /** '_' and two hex digits stand for a byte; any other '_' stands for itself. */
  function DecodePath(src: Bytes): Bytes {
    if src == [] then []
    else if src[0] != '_' || |src| < 3 then [src[0]] + DecodePath(src[1..])
    else match Hex.Decode(src[1..3])
      case Some(byte) => byte + DecodePath(src[3..])
      case None => [src[0]] + DecodePath(src[1..])
  }

  lemma DecodeAt(src: Bytes, i: nat)
    requires i < |src|
    ensures var escape := if src[i] == '_' && i + 3 <= |src| then Hex.Decode(src[i + 1..i + 3]) else None;
      match escape
      case Some(byte) => i + 3 <= |src| && DecodePath(src[i..]) == byte + DecodePath(src[i + 3..])
      case None => DecodePath(src[i..]) == [src[i]] + DecodePath(src[i + 1..])
  {
    var rest := src[i..];
    assert rest != [] && rest[0] == src[i] && |rest| == |src| - i;
    assert rest[1..] == src[i + 1..];
    if src[i] == '_' && i + 3 <= |src| {
      assert rest[1..3] == src[i + 1..i + 3] && rest[3..] == src[i + 3..];
      var decoded := Hex.Decode(rest[1..3]);
      if decoded.None? {
        assert DecodePath(rest) == [rest[0]] + DecodePath(rest[1..]);
      } else {
        assert DecodePath(rest) == decoded.value + DecodePath(rest[3..]);
      }
    } else {
      assert DecodePath(rest) == [rest[0]] + DecodePath(rest[1..]);
    }
  }

  method DecodeSecretServicePath(src: Bytes) returns (dst: Bytes)
    ensures dst == DecodePath(src)
  {
    DecodeNothing();
    hide DecodePath, Hex.Decode;
    dst := [];
    var i := 0;
    assert src[0..] == src;
    while i < |src|
      invariant i <= |src|
      invariant dst + DecodePath(src[i..]) == DecodePath(src)
      decreases |src| - i
    {
      DecodeAt(src, i);
      if src[i] != '_' || i + 3 > |src| {
        Regroup(dst, [src[i]], DecodePath(src[i + 1..]));
        dst := dst + [src[i]];
        i := i + 1;
        continue;
      }
      var decoded := Hex.Decode(src[i + 1..i + 3]);
      if decoded.None? {
        Regroup(dst, [src[i]], DecodePath(src[i + 1..]));
        dst := dst + [src[i]];
        i := i + 1;
        continue;
      }
      Regroup(dst, decoded.value, DecodePath(src[i + 3..]));
      dst := dst + decoded.value;
      i := i + 3;
    }
    assert src[i..] == [] && dst + [] == dst;
  }

  /** How a service escapes a name into a path element; the case of the digits does not matter. */
  function EncodeByte(c: Byte, upper: bool): Bytes {
    if IsAlnum(c) then [c] else ['_'] + Hex.Pair(c, upper)
  }

  function EncodeName(name: Bytes, upper: bool): Bytes {
    if name == [] then [] else EncodeByte(name[0], upper) + EncodeName(name[1..], upper)
  }

  function PathOf(name: Bytes, upper: bool): Bytes {
    COLLECTIONS + EncodeName(name, upper)
  }

  predicate PathMatches(path: Bytes, name: Bytes) {
    DecodePath(path) == COLLECTIONS + name
  }

  /** A path is that of a name exactly if it decodes to the collection of that name. */
  lemma PathMatchesText(path: Bytes, name: Bytes)
    ensures PathMatches(path, name) <==> DecodePath(path) == "/org/freedesktop/secrets/collection/" + name
  {}

  lemma {:induction false} DecodePlain(plain: Bytes, rest: Bytes)
    requires '_' !in plain
    ensures DecodePath(plain + rest) == plain + DecodePath(rest)
  {
    if plain == [] {
      assert plain + rest == rest;
    } else {
      DecodePlain(plain[1..], rest);
      assert (plain + rest)[1..] == plain[1..] + rest;
      assert [plain[0]] + (plain[1..] + DecodePath(rest)) == plain + DecodePath(rest);
    }
  }

  lemma DecodePair(c: Byte, upper: bool)
    ensures Hex.Decode(Hex.Pair(c, upper)) == Some([c])
  {
    assert Hex.Encode([c], upper) == Hex.Pair(c, upper) + Hex.Encode([], upper) == Hex.Pair(c, upper);
    Hex.DecodeEncode([c], upper);
  }

  lemma DecodeByte(c: Byte, rest: Bytes, upper: bool)
    ensures DecodePath(EncodeByte(c, upper) + rest) == [c] + DecodePath(rest)
  {
    var src := EncodeByte(c, upper) + rest;
    if IsAlnum(c) {
      assert src[1..] == rest;
    } else {
      DecodePair(c, upper);
      hide Hex.Pair, Hex.Decode;
      assert src[1..3] == Hex.Pair(c, upper) && src[3..] == rest;
    }
  }

  /** Decoding is a left inverse of the escape. */
  lemma {:induction false} DecodeEncodedName(name: Bytes, upper: bool)
    ensures DecodePath(EncodeName(name, upper)) == name
  {
    hide DecodePath, EncodeByte;
    if name == [] {
      DecodeNothing();
    } else {
      DecodeByte(name[0], EncodeName(name[1..], upper), upper);
      DecodeEncodedName(name[1..], upper);
      assert name == [name[0]] + name[1..];
    }
  }

  lemma DecodeNothing()
    ensures DecodePath([]) == []
  {}

  /** The escaped path of one name matches exactly that name. */
  lemma EncodedPathMatchesOnlyItsName(name: Bytes, other: Bytes, upper: bool)
    ensures PathMatches(PathOf(name, upper), other) <==> name == other
  {
    hide DecodePath, PathMatches;
    PathMatchesText(PathOf(name, upper), other);
    DecodePlain(COLLECTIONS, EncodeName(name, upper));
    DecodeEncodedName(name, upper);
    if COLLECTIONS + name == COLLECTIONS + other {
      assert name == (COLLECTIONS + name)[|COLLECTIONS|..];
      assert other == (COLLECTIONS + other)[|COLLECTIONS|..];
    }
  }

  // ---------- the service ----------

  datatype SecretItem = SecretItem(data: string, locked: bool)

  datatype Collection = Collection(locked: bool, items: map<string, SecretItem>)

  datatype Collections = Collections(byPath: map<Bytes, Collection>, order: seq<Bytes>)

  ghost predicate WellFormed(c: Collections) {
    NoDuplicates(c.order) && forall p :: p in c.order <==> p in c.byPath
  }

  /** The first listed collection whose path decodes to the name. */
  function FirstMatch(order: seq<Bytes>, name: Bytes): Option<Bytes> {
    if order == [] then None
    else if PathMatches(order[0], name) then Some(order[0])
    else FirstMatch(order[1..], name)
  }

  lemma {:induction false} FirstMatchFound(order: seq<Bytes>, name: Bytes)
    ensures FirstMatch(order, name).Some? ==>
      FirstMatch(order, name).value in order && PathMatches(FirstMatch(order, name).value, name)
    ensures FirstMatch(order, name).Some? ==> exists i ::
      0 <= i < |order| && order[i] == FirstMatch(order, name).value && NoneMatch(order[..i], name)
    ensures FirstMatch(order, name).None? ==> forall p :: p in order ==> !PathMatches(p, name)
  {
    hide PathMatches;
    if order != [] {
      FirstMatchFound(order[1..], name);
      assert order == [order[0]] + order[1..];
      if PathMatches(order[0], name) {
        assert order[..0] == [];
      } else if FirstMatch(order, name).Some? {
        var i :| 0 <= i < |order[1..]| && order[1..][i] == FirstMatch(order[1..], name).value
          && NoneMatch(order[1..][..i], name);
        assert order[..i + 1] == [order[0]] + order[1..][..i] && order[i + 1] == order[1..][i];
      }
    }
  }

  ghost predicate NoneMatch(paths: seq<Bytes>, name: Bytes) {
    forall p :: p in paths ==> !PathMatches(p, name)
  }

  lemma {:induction false} FirstMatchAppend(order: seq<Bytes>, more: Bytes, name: Bytes)
    requires FirstMatch(order, name).None? && PathMatches(more, name)
    ensures FirstMatch(order + [more], name) == Some(more)
  {
    if order != [] {
      assert (order + [more])[1..] == order[1..] + [more];
      FirstMatchAppend(order[1..], more, name);
    }
  }

  /** What a backend of that name stores: the data of its collection, nothing without one. */
  ghost function Stored(c: Collections, name: Bytes): Contents {
    match FirstMatch(c.order, name)
    case None => map[]
    case Some(p) => if p in c.byPath then Values(c.byPath[p]) else map[]
  }

  ghost function Values(c: Collection): Contents {
    map k | k in c.items :: c.items[k].data
  }

  /** The same collections holding the same data, whatever the locks. */
  ghost predicate SameData(a: Collections, b: Collections) {
    && a.order == b.order && a.byPath.Keys == b.byPath.Keys
    && forall p :: p in a.byPath ==> Values(a.byPath[p]) == Values(b.byPath[p])
  }

  /** The item of this key is locked. */
  ghost predicate ItemLocked(c: Collections, name: Bytes, key: string) {
    var p := FirstMatch(c.order, name);
    p.Some? && p.value in c.byPath && key in c.byPath[p.value].items && c.byPath[p.value].items[key].locked
  }

  /** The collection of this name is locked; `missing` is the answer if there is none. */
  ghost predicate CollectionLocked(c: Collections, name: Bytes, missing: bool) {
    match FirstMatch(c.order, name)
    case None => missing
    case Some(p) => p in c.byPath && c.byPath[p].locked
  }

  /** The service keeps collections and asks the user before it unlocks anything; the user may
      refuse. Its operations demand, as preconditions, that the lock they need is not held. */
  class Service {
    var collections: Collections
    var prompts: nat
    const refused: nat -> bool
    const bornLocked: bool

    ghost predicate Valid()
      reads this
    {
      WellFormed(collections)
    }

    constructor (collections: Collections, refused: nat -> bool, bornLocked: bool)
      requires WellFormed(collections)
      ensures Valid() && this.collections == collections && prompts == 0
      ensures this.refused == refused && this.bornLocked == bornLocked
    {
      this.collections, this.prompts, this.refused, this.bornLocked := collections, 0, refused, bornLocked;
    }

    method CreateCollection(name: Bytes) returns (path: Bytes)
      requires Valid() && PathOf(name, false) !in collections.byPath
      modifies this`collections
      ensures Valid() && path == PathOf(name, false)
      ensures collections.order == old(collections.order) + [path]
      ensures collections.byPath == old(collections.byPath)[path := Collection(bornLocked, map[])]
    {
      path := PathOf(name, false);
      collections := Collections(collections.byPath[path := Collection(bornLocked, map[])], collections.order + [path]);
    }

    method Put(path: Bytes, c: Collection)
      requires Valid() && path in collections.byPath
      modifies this`collections
      ensures Valid() && collections == old(collections).(byPath := old(collections.byPath)[path := c])
    {
      collections := collections.(byPath := collections.byPath[path := c]);
    }

    method UnlockCollection(path: Bytes) returns (ok: bool)
      requires Valid() && path in collections.byPath
      modifies this
      ensures Valid() && SameData(old(collections), collections)
      ensures ok <==> !refused(old(prompts))
      ensures prompts == old(prompts) + 1
      ensures ok ==> !collections.byPath[path].locked
    {
      ok := !refused(prompts);
      prompts := prompts + 1;
      if ok {
        Put(path, collections.byPath[path].(locked := false));
      }
    }

    method UnlockItem(path: Bytes, key: string) returns (ok: bool)
      requires Valid() && path in collections.byPath && key in collections.byPath[path].items
      modifies this
      ensures Valid() && SameData(old(collections), collections)
      ensures path in collections.byPath && key in collections.byPath[path].items
      ensures ok <==> !refused(old(prompts))
      ensures prompts == old(prompts) + 1
      ensures ok ==> !collections.byPath[path].items[key].locked
    {
      ok := !refused(prompts);
      prompts := prompts + 1;
      if ok {
        var c := collections.byPath[path];
        var open := c.(items := c.items[key := c.items[key].(locked := false)]);
        assert Values(open) == Values(c);
        Put(path, open);
      }
    }

    method Secret(path: Bytes, key: string) returns (data: string)
      requires Valid() && path in collections.byPath && key in collections.byPath[path].items
      requires !collections.byPath[path].items[key].locked
      ensures data == collections.byPath[path].items[key].data
    {
      data := collections.byPath[path].items[key].data;
    }

    method CreateItem(path: Bytes, key: string, data: string)
      requires Valid() && path in collections.byPath
      requires !collections.byPath[path].locked
      modifies this`collections
      ensures Valid() && collections.order == old(collections.order)
      ensures collections.byPath.Keys == old(collections.byPath.Keys)
      ensures Values(collections.byPath[path]) == Values(old(collections.byPath[path]))[key := data]
      ensures forall p :: p in collections.byPath && p != path ==> collections.byPath[p] == old(collections.byPath)[p]
    {
      var c := collections.byPath[path];
      Put(path, c.(items := c.items[key := SecretItem(data, false)]));
    }

    method DeleteItem(path: Bytes, key: string)
      requires Valid() && path in collections.byPath && key in collections.byPath[path].items
      requires !collections.byPath[path].items[key].locked
      modifies this`collections
      ensures Valid() && collections.order == old(collections.order)
      ensures collections.byPath.Keys == old(collections.byPath.Keys)
      ensures Values(collections.byPath[path]) == Values(old(collections.byPath[path])) - {key}
      ensures forall p :: p in collections.byPath && p != path ==> collections.byPath[p] == old(collections.byPath)[p]
    {
      var c := collections.byPath[path];
      Put(path, c.(items := c.items - {key}));
    }

    method Labels(path: Bytes) returns (labels: seq<string>)
      requires Valid() && path in collections.byPath
      requires !collections.byPath[path].locked
      ensures NoDuplicates(labels) && forall k :: k in labels <==> k in collections.byPath[path].items
    {
      labels := ListKeys(collections.byPath[path].items);
    }

    /** Locks may come and go between operations. */
    method Relock(locks: map<Bytes, bool>, itemLocks: map<(Bytes, string), bool>)
      requires Valid()
      modifies this`collections
      ensures Valid() && SameData(old(collections), collections)
    {
      var byPath := map p | p in collections.byPath ::
        Collection(
          if p in locks then locks[p] else collections.byPath[p].locked,
          map k | k in collections.byPath[p].items ::
            SecretItem(collections.byPath[p].items[k].data,
                       if (p, k) in itemLocks then itemLocks[(p, k)] else collections.byPath[p].items[k].locked));
      forall p | p in byPath ensures Values(byPath[p]) == Values(collections.byPath[p]) {}
      collections := collections.(byPath := byPath);
    }
  }

  // ---------- the backend ----------

  datatype Refusal = NoSuchItem | PromptRefused

  datatype Answer<+T> = Is(value: T) | Not(reason: Refusal)

  /** Changes to a service that keep the data of every collection but one, which alone may be new. */
  ghost predicate OthersKept(a: Collections, b: Collections, mine: Option<Bytes>) {
    && a.order <= b.order
    && (forall i :: |a.order| <= i < |b.order| ==> Some(b.order[i]) == mine)
    && forall p :: mine != Some(p) ==> SameCollection(a, b, p)
  }

  ghost predicate SameCollection(a: Collections, b: Collections, p: Bytes) {
    (p in a.byPath <==> p in b.byPath) && (p in a.byPath ==> Values(b.byPath[p]) == Values(a.byPath[p]))
  }

  /** Changes that keep what belongs to any other name. */
  ghost predicate NeighboursKept(a: Collections, b: Collections, name: Bytes) {
    && a.order <= b.order
    && (forall i :: |a.order| <= i < |b.order| ==> PathMatches(b.order[i], name))
    && forall p :: !PathMatches(p, name) ==> SameCollection(a, b, p)
  }

  lemma OthersAreNeighbours(a: Collections, b: Collections, mine: Option<Bytes>, name: Bytes)
    requires OthersKept(a, b, mine) && (mine.Some? ==> PathMatches(mine.value, name))
    ensures NeighboursKept(a, b, name)
  {
    hide PathMatches;
  }

  lemma NeighboursChain(a: Collections, b: Collections, c: Collections, name: Bytes)
    requires NeighboursKept(a, b, name) && NeighboursKept(b, c, name)
    ensures NeighboursKept(a, c, name)
  {
    hide PathMatches;
    assert forall i :: 0 <= i < |b.order| ==> b.order[i] == c.order[i];
    forall p | !PathMatches(p, name) ensures SameCollection(a, c, p) {
      assert SameCollection(a, b, p) && SameCollection(b, c, p);
    }
  }

  lemma {:induction false} FirstMatchGrows(a: seq<Bytes>, b: seq<Bytes>, name: Bytes)
    requires a <= b && forall i :: |a| <= i < |b| ==> !PathMatches(b[i], name)
    ensures FirstMatch(b, name) == FirstMatch(a, name)
  {
    hide PathMatches;
    if a == [] {
      FirstMatchFound(b, name);
    } else {
      FirstMatchGrows(a[1..], b[1..], name);
    }
  }

  /** What a backend of another name stores is the same. */
  lemma NeighbourStored(a: Collections, b: Collections, name: Bytes, other: Bytes)
    requires NeighboursKept(a, b, name) && other != name
    ensures Stored(b, other) == Stored(a, other)
  {
    assert (COLLECTIONS + name)[|COLLECTIONS|..] == name;
    assert (COLLECTIONS + other)[|COLLECTIONS|..] == other;
    hide PathMatches;
    FirstMatchGrows(a.order, b.order, other);
    FirstMatchFound(a.order, other);
    var p := FirstMatch(a.order, other);
    assert p.Some? ==> SameCollection(a, b, p.value);
  }

  lemma SameDataSameStore(a: Collections, b: Collections, name: Bytes)
    requires SameData(a, b)
    ensures Stored(a, name) == Stored(b, name) && OthersKept(a, b, None)
  {}

  class SecretServiceBackend {
    const name: Bytes
    const service: Service
    var collection: Option<Bytes>

    /** Between calls the remembered collection, if any, is one of this name. */
    ghost predicate Valid()
      reads this, service
    {
      && service.Valid()
      && (collection.Some? ==> collection.value in service.collections.byPath && PathMatches(collection.value, name))
    }

    ghost function Abs(): Contents
      reads this, service
    {
      Stored(service.collections, name)
    }

    /** After opening, the remembered collection is the one the service lists first. */
    ghost predicate Opened()
      reads this, service
    {
      Valid() && collection == FirstMatch(service.collections.order, name)
    }

    constructor (name: Bytes, service: Service)
      requires service.Valid()
      ensures Valid() && this.service == service && Opened()
      ensures this.name == if name == "" then "secret-service" else name
    {
      this.name := if name == "" then "secret-service" else name;
      this.service, this.collection := service, None;
      new;
      OpenSecrets();
    }

    /** Remembers the first collection whose path matches; keeps the old one if none does. */
    method OpenSecrets()
      requires Valid()
      modifies this
      ensures Opened()
    {
      hide PathMatches;
      var order := service.collections.order;
      FirstMatchFound(order, name);
      var found := FirstMatch(order, name);
      if found.Some? {
        collection := found;
      }
    }

    /** The user was asked, once, exactly when the needed lock was held; `ok` says that it is open
        now. */
    twostate predicate AskedIf(locked: bool, ok: bool)
      reads service
    {
      && service.prompts == old(service.prompts) + (if locked then 1 else 0)
      && (ok <==> !(locked && service.refused(old(service.prompts))))
    }

    method EnsureCollectionUnlocked() returns (ok: bool)
      requires Opened() && collection.Some?
      modifies service
      ensures Opened() && collection.Some? && SameData(old(service.collections), service.collections)
      ensures AskedIf(old(service.collections.byPath[collection.value].locked), ok)
      ensures ok ==> !service.collections.byPath[collection.value].locked
    {
      hide PathMatches, FirstMatch;
      if !service.collections.byPath[collection.value].locked {
        return true;
      }
      ok := service.UnlockCollection(collection.value);
    }

    /** Unlocks the item first if it is locked. */
    method EnsureItemUnlocked(key: string) returns (ok: bool)
      requires Opened() && collection.Some? && key in service.collections.byPath[collection.value].items
      modifies service
      ensures Opened() && collection.Some? && SameData(old(service.collections), service.collections)
      ensures key in service.collections.byPath[collection.value].items
      ensures AskedIf(old(service.collections.byPath[collection.value].items[key].locked), ok)
      ensures ok ==> !service.collections.byPath[collection.value].items[key].locked
    {
      hide PathMatches, FirstMatch;
      if !service.collections.byPath[collection.value].items[key].locked {
        return true;
      }
      ok := service.UnlockItem(collection.value, key);
    }

    method Get(key: string) returns (r: Answer<string>)
      requires Valid()
      modifies this, service
      ensures Valid() && SameData(old(service.collections), service.collections) && Abs() == old(Abs())
      ensures r == Not(NoSuchItem) <==> key !in Abs()
      ensures r.Is? ==> r.value == Abs()[key]
      ensures AskedIf(ItemLocked(old(service.collections), name, key), r != Not(PromptRefused))
    {
      hide PathMatches, FirstMatch;
      OpenSecrets();
      if collection.None? || key !in service.collections.byPath[collection.value].items {
        return Not(NoSuchItem);
      }
      ghost var before := service.collections;
      var ok := EnsureItemUnlocked(key);
      SameDataSameStore(before, service.collections, name);
      if !ok {
        return Not(PromptRefused);
      }
      var data := service.Secret(collection.value, key);
      return Is(data);
    }

    method Metadata(key: string) returns (found: bool)
      requires Valid()
      modifies this
      ensures Valid() && Abs() == old(Abs())
      ensures found <==> key in Abs()
    {
      hide PathMatches, FirstMatch;
      OpenSecrets();
      found := collection.Some? && key in service.collections.byPath[collection.value].items;
    }

    method CreateMissing()
      requires Opened() && collection.None?
      modifies this, service
      ensures Opened() && collection.Some? && Abs() == old(Abs())
      ensures service.prompts == old(service.prompts)
      ensures service.collections.byPath[collection.value].locked == service.bornLocked
      ensures OthersKept(old(service.collections), service.collections, collection)
    {
      hide PathMatches, FirstMatch;
      ghost var order := service.collections.order;
      PathIsFree(service.collections, name);
      var path := service.CreateCollection(name);
      EncodedPathMatchesOnlyItsName(name, name, false);
      FirstMatchAppend(order, path, name);
      collection := Some(path);
    }

    /** Creates the collection if there is none, then the item, replacing one of the same key. */
    method Set(key: string, data: string) returns (err: Option<Refusal>)
      requires Valid()
      modifies this, service
      ensures Valid() && err != Some(NoSuchItem)
      ensures AskedIf(CollectionLocked(old(service.collections), name, service.bornLocked), err.None?)
      ensures Abs() == if err.None? then old(Abs())[key := data] else old(Abs())
      ensures OthersKept(old(service.collections), service.collections, collection)
    {
      hide PathMatches, FirstMatch;
      ghost var original := service.collections;
      OpenSecrets();
      if collection.None? {
        CreateMissing();
      }
      assert Abs() == old(Abs()) && OthersKept(original, service.collections, collection);
      ghost var before := service.collections;
      var ok := EnsureCollectionUnlocked();
      SameDataSameStore(before, service.collections, name);
      if !ok {
        return Some(PromptRefused);
      }
      service.CreateItem(collection.value, key, data);
      return None;
    }

    method Remove(key: string) returns (err: Option<Refusal>)
      requires Valid()
      modifies this, service
      ensures Valid()
      ensures err == Some(NoSuchItem) <==> key !in old(Abs())
      ensures AskedIf(ItemLocked(old(service.collections), name, key), err != Some(PromptRefused))
      ensures Abs() == if err.None? then old(Abs()) - {key} else old(Abs())
      ensures OthersKept(old(service.collections), service.collections, collection)
    {
      hide PathMatches, FirstMatch;
      OpenSecrets();
      if collection.None? || key !in service.collections.byPath[collection.value].items {
        return Some(NoSuchItem);
      }
      ghost var before := service.collections;
      var ok := EnsureItemUnlocked(key);
      SameDataSameStore(before, service.collections, name);
      if !ok {
        return Some(PromptRefused);
      }
      service.DeleteItem(collection.value, key);
      return None;
    }

    /** No collection, no keys. */
    method Keys() returns (r: Answer<seq<string>>)
      requires Valid()
      modifies this, service
      ensures Valid() && SameData(old(service.collections), service.collections) && Abs() == old(Abs())
      ensures r.Is? ==> NoDuplicates(r.value) && forall k :: k in r.value <==> k in Abs()
      ensures FirstMatch(service.collections.order, name).None? ==> r == Is([])
      ensures r.Is? || r == Not(PromptRefused)
      ensures AskedIf(CollectionLocked(old(service.collections), name, false), r.Is?)
    {
      hide PathMatches, FirstMatch;
      OpenSecrets();
      if collection.None? {
        return Is([]);
      }
      ghost var before := service.collections;
      var ok := EnsureCollectionUnlocked();
      SameDataSameStore(before, service.collections, name);
      if !ok {
        return Not(PromptRefused);
      }
      var keys := service.Labels(collection.value);
      return Is(keys);
    }
  }

  /** When no listed path matches a name, the path the service would give it is unused. */
  lemma PathIsFree(c: Collections, name: Bytes)
    requires WellFormed(c) && FirstMatch(c.order, name).None?
    ensures PathOf(name, false) !in c.byPath
  {
    FirstMatchFound(c.order, name);
    EncodedPathMatchesOnlyItsName(name, name, false);
  }

  // ---------- whole runs ----------

  /** What a client asks, or what happens to the locks meanwhile. */
  datatype Op =
    | GetOp(key: string)
    | MetadataOp(key: string)
    | SetOp(key: string, data: string)
    | RemoveOp(key: string)
    | KeysOp
    | LocksChange(locks: map<Bytes, bool>, itemLocks: map<(Bytes, string), bool>)

  datatype Reply =
    | Data(answer: Answer<string>)
    | Present(found: bool)
    | Done(err: Option<Refusal>)
    | Listing(keys: Answer<seq<string>>)
    | Nothing

  function Refused(op: Op): Reply {
    match op
    case GetOp(_) => Data(Not(PromptRefused))
    case MetadataOp(_) => Nothing
    case SetOp(_, _) => Done(Some(PromptRefused))
    case RemoveOp(_) => Done(Some(PromptRefused))
    case KeysOp => Listing(Not(PromptRefused))
    case LocksChange(_, _) => Nothing
  }

  /** An operation of the map from key to data. */
  ghost predicate Served(a: Contents, op: Op, reply: Reply, b: Contents) {
    match op
    case GetOp(key) => b == a && reply == Data(if key in a then Is(a[key]) else Not(NoSuchItem))
    case MetadataOp(key) => b == a && reply == Present(key in a)
    case SetOp(key, data) => b == a[key := data] && reply == Done(None)
    case RemoveOp(key) =>
      if key in a then b == a - {key} && reply == Done(None) else b == a && reply == Done(Some(NoSuchItem))
    case KeysOp =>
      && b == a && reply.Listing? && reply.keys.Is?
      && NoDuplicates(reply.keys.value) && forall k :: k in reply.keys.value <==> k in a
    case LocksChange(_, _) => b == a && reply == Nothing
  }

  /** The map's operation, unless the user was asked and refused; then nothing changes. */
  ghost predicate Step(refused: nat -> bool, a: Contents, before: nat, op: Op, reply: Reply, b: Contents, after: nat) {
    && before <= after <= before + 1
    && if before < after && refused(before) then b == a && reply == Refused(op) else Served(a, op, reply, b)
  }

  ghost predicate Run(refused: nat -> bool, states: seq<Contents>, prompts: seq<nat>, ops: seq<Op>,
      replies: seq<Reply>)
  {
    && |states| == |prompts| == |ops| + 1 == |replies| + 1
    && forall i :: 0 <= i < |ops| ==>
         Step(refused, states[i], prompts[i], ops[i], replies[i], states[i + 1], prompts[i + 1])
  }

  method Perform(b: SecretServiceBackend, op: Op) returns (reply: Reply)
    requires b.Valid()
    modifies b, b.service
    ensures b.Valid()
    ensures Step(b.service.refused, old(b.Abs()), old(b.service.prompts), op, reply, b.Abs(), b.service.prompts)
    ensures NeighboursKept(old(b.service.collections), b.service.collections, b.name)
  {
    hide PathMatches, FirstMatch;
    ghost var before := b.service.collections;
    match op
    case GetOp(key) =>
      var r := b.Get(key);
      reply := Data(r);
      SameDataSameStore(before, b.service.collections, b.name);
      OthersAreNeighbours(before, b.service.collections, None, b.name);
      assert r.Is? || r.reason.NoSuchItem? || r.reason.PromptRefused?;
    case MetadataOp(key) =>
      var found := b.Metadata(key);
      reply := Present(found);
      OthersAreNeighbours(before, b.service.collections, None, b.name);
    case SetOp(key, data) =>
      var err := b.Set(key, data);
      reply := Done(err);
      OthersAreNeighbours(before, b.service.collections, b.collection, b.name);
      assert err.None? || err.value.NoSuchItem? || err.value.PromptRefused?;
    case RemoveOp(key) =>
      var err := b.Remove(key);
      reply := Done(err);
      OthersAreNeighbours(before, b.service.collections, b.collection, b.name);
      assert err.None? || err.value.NoSuchItem? || err.value.PromptRefused?;
    case KeysOp =>
      var r := b.Keys();
      reply := Listing(r);
      SameDataSameStore(before, b.service.collections, b.name);
      OthersAreNeighbours(before, b.service.collections, None, b.name);
      assert r.Is? ==> Served(b.Abs(), op, reply, b.Abs());
    case LocksChange(locks, itemLocks) =>
      b.service.Relock(locks, itemLocks);
      SameDataSameStore(before, b.service.collections, b.name);
      OthersAreNeighbours(before, b.service.collections, None, b.name);
      reply := Nothing;
  }

  /** Whatever a client does, while locks come and go, is a run of the map from key to data in which
      an operation fails only if the user, asked for it, refused. */
  method Execute(b: SecretServiceBackend, ops: seq<Op>)
    returns (replies: seq<Reply>, ghost states: seq<Contents>, ghost prompts: seq<nat>)
    requires b.Valid()
    modifies b, b.service
    ensures b.Valid() && Run(b.service.refused, states, prompts, ops, replies)
    ensures states[0] == old(b.Abs()) && states[|ops|] == b.Abs()
    ensures prompts[0] == old(b.service.prompts) && prompts[|ops|] == b.service.prompts
    ensures forall other: Bytes :: other != b.name ==>
      Stored(b.service.collections, other) == Stored(old(b.service.collections), other)
  {
    hide Step, NeighboursKept;
    ghost var before := b.service.collections;
    NeighboursStart(before, b.name);
    replies, states, prompts := [], [b.Abs()], [b.service.prompts];
    for n := 0 to |ops|
      invariant b.Valid() && Run(b.service.refused, states, prompts, ops[..n], replies)
      invariant states[0] == old(b.Abs()) && states[n] == b.Abs()
      invariant prompts[0] == old(b.service.prompts) && prompts[n] == b.service.prompts
      invariant NeighboursKept(before, b.service.collections, b.name)
    {
      ghost var now := b.service.collections;
      var reply := Perform(b, ops[n]);
      NeighboursChain(before, now, b.service.collections, b.name);
      assert ops[..n + 1] == ops[..n] + [ops[n]];
      replies, states, prompts := replies + [reply], states + [b.Abs()], prompts + [b.service.prompts];
    }
    assert ops[..|ops|] == ops;
    forall other: Bytes | other != b.name
      ensures Stored(b.service.collections, other) == Stored(before, other)
    {
      NeighbourStored(before, b.service.collections, b.name, other);
    }
  }

  lemma NeighboursStart(c: Collections, name: Bytes)
    ensures NeighboursKept(c, c, name)
  {}

  /** The operation was served and put or removed this key. */
  predicate ChangesKey(op: Op, reply: Reply, key: string) {
    (op.SetOp? || op.RemoveOp?) && op.key == key && reply == Done(None)
  }

  /** The last of the first n operations that was served and put or removed this key. */
  ghost function LastChange(ops: seq<Op>, replies: seq<Reply>, n: nat, key: string): Option<nat>
    requires n <= |ops| == |replies|
  {
    if n == 0 then None
    else if ChangesKey(ops[n - 1], replies[n - 1], key) then Some(n - 1)
    else LastChange(ops, replies, n - 1, key)
  }

  /** Over any run, with prompts refused anywhere: a key holds what the last operation that reported
      success for it put there, nothing if that removed it, and what it held initially if there is
      none. */
  lemma {:induction false} LastChangeDecides(refused: nat -> bool, states: seq<Contents>, prompts: seq<nat>,
      ops: seq<Op>, replies: seq<Reply>, n: nat, key: string)
    requires Run(refused, states, prompts, ops, replies) && n <= |ops|
    ensures match LastChange(ops, replies, n, key)
      case None => SameAt(states[0], states[n], key)
      case Some(i) =>
        && i < n
        && if ops[i].SetOp? then key in states[n] && states[n][key] == ops[i].data else key !in states[n]
  {
    hide Step;
    if n > 0 {
      LastChangeDecides(refused, states, prompts, ops, replies, n - 1, key);
      StepAt(refused, states[n - 1], prompts[n - 1], ops[n - 1], replies[n - 1], states[n], prompts[n], key);
    }
  }

  lemma StepAt(refused: nat -> bool, a: Contents, before: nat, op: Op, reply: Reply, b: Contents, after: nat,
      key: string)
    requires Step(refused, a, before, op, reply, b, after)
    ensures op.SetOp? && op.key == key && reply == Done(None) ==> key in b && b[key] == op.data
    ensures op.RemoveOp? && op.key == key && reply == Done(None) ==> key !in b
    ensures !ChangesKey(op, reply, key) ==> SameAt(a, b, key)
  {}

  /** If the user never refuses, no reply is a refusal: every one is that of the map. */
  lemma NeverRefused(refused: nat -> bool, states: seq<Contents>, prompts: seq<nat>, ops: seq<Op>,
      replies: seq<Reply>, i: nat)
    requires Run(refused, states, prompts, ops, replies) && i < |ops|
    requires forall n: nat :: prompts[0] <= n < prompts[|ops|] ==> !refused(n)
    ensures Served(states[i], ops[i], replies[i], states[i + 1])
  {
    hide Served;
    PromptsGrow(refused, states, prompts, ops, replies, 0, i);
    PromptsGrow(refused, states, prompts, ops, replies, i + 1, |ops|);
    assert Step(refused, states[i], prompts[i], ops[i], replies[i], states[i + 1], prompts[i + 1]);
  }

  lemma {:induction false} PromptsGrow(refused: nat -> bool, states: seq<Contents>, prompts: seq<nat>,
      ops: seq<Op>, replies: seq<Reply>, i: nat, j: nat)
    requires Run(refused, states, prompts, ops, replies) && i <= j <= |ops|
    ensures prompts[i] <= prompts[j]
  {
    hide Served;
    if i < j {
      PromptsGrow(refused, states, prompts, ops, replies, i, j - 1);
      assert Step(refused, states[j - 1], prompts[j - 1], ops[j - 1], replies[j - 1], states[j], prompts[j]);
    }
  }
}
