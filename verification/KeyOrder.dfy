/** The order in which a map keyed by strings is iterated: ascending by code units. */
module KeyOrder {
  import opened Text

  ghost predicate Before(a: QString, b: QString) {
    CompareUnits(a, b) == Less
  }

  ghost predicate IsLeast(k: QString, keys: set<QString>) {
    k in keys && forall j :: j in keys && j != k ==> Before(k, j)
  }

  lemma {:induction false} LeastExists(keys: set<QString>) returns (k: QString)
    requires keys != {}
    ensures IsLeast(k, keys)
  {
    var k0 :| k0 in keys;
    var rest := keys - {k0};
    if rest == {} {
      assert forall j :: j in keys ==> j == k0 || j in rest;
      return k0;
    }
    var m := LeastExists(rest);
    CompareUnitsReverse(k0, m);
    k := if Before(m, k0) then m else k0;
    forall j | j in keys && j != k ensures Before(k, j) {
      if j != k0 && j != m {
        assert j in rest;
        assert Before(m, j);
        if k == k0 {
          CompareUnitsTransitive(k0, m, j);
        }
      }
    }
  }

  lemma LeastIsUnique(a: QString, b: QString, keys: set<QString>)
    requires IsLeast(a, keys) && IsLeast(b, keys)
    ensures a == b
  {
    CompareUnitsReverse(a, b);
  }

  /** The keys of a map in the order in which it is iterated. */
  ghost function SortedKeys(keys: set<QString>): (r: seq<QString>)
    ensures forall k :: k in r <==> k in keys
    ensures forall i :: 0 <= i < |r| ==> r[i] in keys
    ensures forall i, j :: 0 <= i < j < |r| ==> Before(r[i], r[j])
    ensures forall i, j :: 0 <= i < j < |r| ==> r[i] != r[j]
  {
    if keys == {} then []
    else
      assert exists k :: IsLeast(k, keys) by {
        var k := LeastExists(keys);
      }
      var k :| IsLeast(k, keys);
      [k] + SortedKeys(keys - {k})
  }

  lemma SortedKeysStep(keys: set<QString>, key: QString)
    requires IsLeast(key, keys)
    ensures SortedKeys(keys) == [key] + SortedKeys(keys - {key})
  {
    var k := SortedKeys(keys)[0];
    assert forall j :: IsLeast(j, keys) ==> j == key by {
      forall j | IsLeast(j, keys) ensures j == key {
        LeastIsUnique(j, key, keys);
      }
    }
  }

  lemma OneKey(key: QString)
    ensures SortedKeys({key}) == [key]
  {
    CompareUnitsReverse(key, key);
    assert IsLeast(key, {key});
    SortedKeysStep({key}, key);
    assert {key} - {key} == {} && SortedKeys({}) == [];
  }

  /** The key at which the iteration over the given keys begins. */
  method FirstKey(keys: set<QString>) returns (key: QString)
    requires keys != {}
    ensures IsLeast(key, keys)
  {
    ghost var least := LeastExists(keys);
    key :| key in keys && forall k :: k in keys && k != key ==> CompareUnits(key, k) == Less;
  }

  /** All keys, in the order of the iteration. */
  method Ordered(keys: set<QString>) returns (r: seq<QString>)
    ensures r == SortedKeys(keys)
  {
    r := [];
    var rest := keys;
    while rest != {}
      invariant SortedKeys(keys) == r + SortedKeys(rest)
      decreases rest
    {
      var key := FirstKey(rest);
      SortedKeysStep(rest, key);
      AppendAssociative(r, [key], SortedKeys(rest - {key}));
      r := r + [key];
      rest := rest - {key};
    }
    assert r + [] == r;
  }
}
