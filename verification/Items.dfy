/** Stored items as maps from key to value, and how two such maps compare. */
module Items {
  import opened Text

  type Contents = map<string, string>

  ghost predicate SameAt(a: Contents, b: Contents, k: string) {
    (k in a <==> k in b) && (k in a ==> a[k] == b[k])
  }

  ghost predicate AgreeExcept(a: Contents, b: Contents, keys: set<string>) {
    forall k :: k !in keys ==> SameAt(a, b, k)
  }

  lemma AgreesWithItself(a: Contents, keys: set<string>)
    ensures AgreeExcept(a, a, keys)
  {}

  lemma SameEverywhere(a: Contents, b: Contents)
    requires AgreeExcept(a, b, {})
    ensures a == b
  {
    forall k ensures k in a <==> k in b { assert SameAt(a, b, k); }
    forall k | k in a ensures a[k] == b[k] { assert SameAt(a, b, k); }
  }

  /** Lists the keys of a map in no particular order, as ranging over a Go map does. */
  method ListKeys<V>(m: map<string, V>) returns (keys: seq<string>)
    ensures NoDuplicates(keys) && forall k :: k in keys <==> k in m
  {
    keys := [];
    var rest := m.Keys;
    while rest != {}
      invariant rest <= m.Keys && NoDuplicates(keys)
      invariant forall k :: k in keys <==> k in m && k !in rest
      decreases rest
    {
      var k :| k in rest;
      keys := keys + [k];
      rest := rest - {k};
    }
  }
}
