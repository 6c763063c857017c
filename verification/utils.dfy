/**
 * `deepEqualCheck`: the structural comparison the diff uses to decide that a
 * desired flag already matches the stored one.
 *
 * The comparison works on the own keys of its operands (`Object.keys`), so an
 * array is compared through its index keys "0", "1", ...; the model keeps
 * that reading, which is why an array and an object with the same index keys
 * compare equal (`ArrayMatchesIndexObject`).
 */
module Utils {
  import opened Wrappers
  import opened Strings
  import opened Json

  /** `Object.keys(v).length` for an array or object. */
  function KeyCount(v: Json): nat
    requires IsObject(v)
  {
    if v.Arr? then |v.items| else |v.fields|
  }

  /** `Object.keys(v).includes(k)`: the own keys of an array are its canonical index strings. */
  predicate HasKey(v: Json, k: string)
    requires IsObject(v)
  {
    if v.Arr? then IsIndexKey(k) && ParseDecimal(k) < |v.items| else k in v.fields
  }

  /** `v[k]` for an own key `k` of `v`. */
  function Get(v: Json, k: string): Json
    requires IsObject(v) && HasKey(v, k)
  {
    if v.Arr? then v.items[ParseDecimal(k)] else v.fields[k]
  }

  /**
   * `deepEqualCheck(a, b)`. The fast path `a === b` is value equality here:
   * two values that are equal as trees also pass the structural comparison
   * (`StructuralComparisonReflexive`), so the result does not depend on
   * whether they are one object or two.
   */
  function DeepEqual(a: Json, b: Json): bool
    decreases a, 1
  {
    if a == b then true
    else if !IsObject(a) || !IsObject(b) then false
    else if KeyCount(a) != KeyCount(b) then false
    else StructurallyEqual(a, b)
  }

  /** The loop over `Object.keys(a)`: every key of `a` is a key of `b` with a deep-equal value. */
  predicate StructurallyEqual(a: Json, b: Json)
    requires IsObject(a) && IsObject(b)
    decreases a, 0
  {
    if a.Arr? then
      forall i | 0 <= i < |a.items| :: HasKey(b, NatToString(i)) && DeepEqual(a.items[i], Get(b, NatToString(i)))
    else
      forall k | k in a.fields :: HasKey(b, k) && DeepEqual(a.fields[k], Get(b, k))
  }

  /** The index keys of an array of length `n`: "0", "1", ..., its canonical decimal indices. */
  ghost function IndexKeys(n: nat): (r: set<string>)
    ensures |r| == n
    ensures forall k :: k in r <==> IsIndexKey(k) && ParseDecimal(k) < n
  {
    if n == 0 then {}
    else
      var last := NatToString(n - 1);
      ParseNatToString(n - 1);
      IndexKeysStep(n - 1, IndexKeys(n - 1));
      IndexKeys(n - 1) + {last}
  }

  lemma IndexKeysStep(n: nat, smaller: set<string>)
    requires forall k :: k in smaller <==> IsIndexKey(k) && ParseDecimal(k) < n
    ensures forall k :: k in smaller + {NatToString(n)} <==> IsIndexKey(k) && ParseDecimal(k) < n + 1
  {
    ParseNatToString(n);
    forall k | IsIndexKey(k) && ParseDecimal(k) == n
      ensures k == NatToString(n)
    {
      NatToStringOfParse(k);
    }
  }

  /** The set of own keys of an array or object: exactly the keys `HasKey` accepts. */
  ghost function OwnKeys(v: Json): (r: set<string>)
    requires IsObject(v)
    ensures forall k :: k in r <==> HasKey(v, k)
  {
    if v.Arr? then IndexKeys(|v.items|) else v.fields.Keys
  }

  /** There are `KeyCount` own keys: `Object.keys` lists each once. */
  lemma OwnKeysCount(v: Json)
    requires IsObject(v)
    ensures |OwnKeys(v)| == KeyCount(v)
  {
  }

  /** The loop over the keys of `a`, stated over `OwnKeys` whatever the kinds of `a` and `b`. */
  lemma StructurallyEqualOnKeys(a: Json, b: Json)
    requires IsObject(a) && IsObject(b)
    ensures StructurallyEqual(a, b) <==>
      forall k :: k in OwnKeys(a) ==> HasKey(b, k) && DeepEqual(Get(a, k), Get(b, k))
  {
    if a.Arr? {
      var s := a.items;
      if StructurallyEqual(a, b) {
        forall k | k in OwnKeys(a)
          ensures HasKey(b, k) && DeepEqual(Get(a, k), Get(b, k))
        {
          var i := ParseDecimal(k);
          NatToStringOfParse(k);
          assert HasKey(b, NatToString(i)) && DeepEqual(s[i], Get(b, NatToString(i)));
        }
      }
      if forall k :: k in OwnKeys(a) ==> HasKey(b, k) && DeepEqual(Get(a, k), Get(b, k)) {
        forall i | 0 <= i < |s|
          ensures HasKey(b, NatToString(i)) && DeepEqual(s[i], Get(b, NatToString(i)))
        {
          ParseNatToString(i);
          assert NatToString(i) in OwnKeys(a);
        }
      }
    }
  }

  lemma SubsetOfSameSize(x: set<string>, y: set<string>)
    requires x <= y && |x| == |y|
    ensures x == y
  {
    assert |y - x| == |y| - |x|;
  }

  /**
   * Two arrays or objects are deep-equal iff they have the same own keys and
   * deep-equal values under every key; the order of the keys plays no part.
   */
  lemma DeepEqualObjects(a: Json, b: Json)
    requires IsObject(a) && IsObject(b)
    ensures DeepEqual(a, b) <==>
      OwnKeys(a) == OwnKeys(b) && forall k :: k in OwnKeys(a) ==> DeepEqual(Get(a, k), Get(b, k))
  {
    OwnKeysCount(a);
    OwnKeysCount(b);
    StructurallyEqualOnKeys(a, b);
    if a == b {
      forall k | k in OwnKeys(a)
        ensures DeepEqual(Get(a, k), Get(b, k))
      {
      }
    } else if DeepEqual(a, b) {
      SubsetOfSameSize(OwnKeys(a), OwnKeys(b));
    }
  }

  /** The structural comparison alone already accepts two equal trees. */
  lemma StructuralComparisonReflexive(v: Json)
    requires IsObject(v)
    ensures StructurallyEqual(v, v)
  {
    StructurallyEqualOnKeys(v, v);
    OwnKeysCount(v);
  }

  /** When either side is `null` or not an object, only identical primitives are equal. */
  lemma DeepEqualPrimitive(a: Json, b: Json)
    requires !IsObject(a) || !IsObject(b)
    ensures DeepEqual(a, b) <==> a == b
  {
  }

  /** Arrays or objects with different numbers of own keys are never equal. */
  lemma DeepEqualKeyCount(a: Json, b: Json)
    requires IsObject(a) && IsObject(b) && KeyCount(a) != KeyCount(b)
    ensures !DeepEqual(a, b)
  {
  }

  /** Two objects are equal iff they have the same keys and deep-equal values under each. */
  lemma DeepEqualMaps(m1: map<string, Json>, m2: map<string, Json>)
    ensures DeepEqual(Obj(m1), Obj(m2)) <==>
      m1.Keys == m2.Keys && forall k :: k in m1 ==> DeepEqual(m1[k], m2[k])
  {
    DeepEqualObjects(Obj(m1), Obj(m2));
  }

  /** Two arrays are equal iff they have the same length and are equal position by position. */
  lemma DeepEqualArrays(s: seq<Json>, t: seq<Json>)
    ensures DeepEqual(Arr(s), Arr(t)) <==>
      |s| == |t| && forall i :: 0 <= i < |s| ==> DeepEqual(s[i], t[i])
  {
    var a, b := Arr(s), Arr(t);
    DeepEqualObjects(a, b);
    if DeepEqual(a, b) {
      assert |s| == |t| by {
        OwnKeysCount(a);
        OwnKeysCount(b);
      }
      forall i | 0 <= i < |s|
        ensures DeepEqual(s[i], t[i])
      {
        ParseNatToString(i);
        assert NatToString(i) in OwnKeys(a);
      }
    }
    if |s| == |t| && forall i :: 0 <= i < |s| ==> DeepEqual(s[i], t[i]) {
      assert OwnKeys(a) == OwnKeys(b);
      forall k | k in OwnKeys(a)
        ensures DeepEqual(Get(a, k), Get(b, k))
      {
        var i := ParseDecimal(k);
        assert DeepEqual(s[i], t[i]);
      }
    }
  }

  /** `deepEqualCheck` is symmetric. */
  lemma {:induction false} DeepEqualSymmetric(a: Json, b: Json)
    ensures DeepEqual(a, b) == DeepEqual(b, a)
  {
    if DeepEqual(a, b) {
      DeepEqualImpliesSwapped(a, b);
    }
    if DeepEqual(b, a) {
      DeepEqualImpliesSwapped(b, a);
    }
  }

  lemma {:induction false} DeepEqualImpliesSwapped(a: Json, b: Json)
    requires DeepEqual(a, b)
    ensures DeepEqual(b, a)
    decreases a
  {
    if a != b && IsObject(a) && IsObject(b) {
      DeepEqualObjects(a, b);
      DeepEqualObjects(b, a);
      OwnKeysCount(a);
      forall k | k in OwnKeys(b)
        ensures DeepEqual(Get(b, k), Get(a, k))
      {
        if a.Arr? {
          ParseNatToString(ParseDecimal(k));
          NatToStringOfParse(k);
          DeepEqualImpliesSwapped(a.items[ParseDecimal(k)], Get(b, k));
        } else {
          DeepEqualImpliesSwapped(a.fields[k], Get(b, k));
        }
      }
    }
  }

  /** The value reached from `v` by following a path of property names, if every step exists. */
  function Lookup(v: Json, path: seq<string>): Option<Json>
  {
    if path == [] then Some(v)
    else if IsObject(v) && HasKey(v, path[0]) then Lookup(Get(v, path[0]), path[1..])
    else None
  }

  /**
   * Deep equality holds at every depth: whatever path leads somewhere in `a`
   * leads to a deep-equal value in `b`. So a difference at any depth, one
   * value or one missing key, makes the whole comparison false.
   */
  lemma {:induction false} DeepEqualAlongPaths(a: Json, b: Json, path: seq<string>)
    requires DeepEqual(a, b) && Lookup(a, path).Some?
    ensures Lookup(b, path).Some? && DeepEqual(Lookup(a, path).value, Lookup(b, path).value)
  {
    if path != [] {
      DeepEqualObjects(a, b);
      OwnKeysCount(a);
      OwnKeysCount(b);
      DeepEqualAlongPaths(Get(a, path[0]), Get(b, path[0]), path[1..]);
    }
  }

  /** An array and an object keyed by its index strings compare equal, e.g. `[true]` and `{"0": true}`. */
  lemma ArrayMatchesIndexObject(x: Json)
    ensures DeepEqual(Arr([x]), Obj(map["0" := x]))
  {
    assert NatToString(0) == "0";
    assert ParseDecimal("0") == 0;
  }
}
