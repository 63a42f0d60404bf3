/**
 * Helpers over lists and dictionaries (AmorLib/Utils/Extensions/CollectionExtensions.cs).
 * A dictionary is a `map`; the order in which it enumerates its keys is a
 * parameter, a duplicate-free listing of the keys. A nested collection is a
 * `seq`, enumerated front to back.
 */
module Collections {
  import opened Wrappers

  /** A duplicate-free listing of a set of keys: the order a dictionary enumerates them in. */
  ghost predicate Enumerates<K>(order: seq<K>, keys: set<K>) {
    && (forall i | 0 <= i < |order| :: order[i] in keys)
    && (forall k | k in keys :: k in order)
    && (forall i, j | 0 <= i < j < |order| :: order[i] != order[j])
  }

  /** Copies a foreign list into a new managed list, element by element. */
  method ToManaged<T>(list: array<T>) returns (managed: seq<T>)
    ensures |managed| == list.Length
    ensures forall i | 0 <= i < list.Length :: managed[i] == list[i]
  {
    managed := [];
    for i := 0 to list.Length
      invariant managed == list[..i]
    {
      managed := managed + [list[i]];
    }
  }

  /**
   * The value under `key`, after inserting `newValue` (a new default instance)
   * under it when the key is absent; the dictionary comes back as the first
   * component.
   */
  function GetOrAddNew<K, V>(dict: map<K, V>, key: K, newValue: V): (r: (map<K, V>, V))
    ensures r.0.Keys == dict.Keys + {key}
    ensures r.0[key] == r.1
    ensures key in dict ==> r.0 == dict && r.1 == dict[key]
    ensures key !in dict ==> r.1 == newValue
    ensures forall k | k in dict && k != key :: r.0[k] == dict[k]
  {
    if key in dict then (dict, dict[key]) else (dict[key := newValue], newValue)
  }

  /** The values an action is invoked on when it is run on each value of `dict`, in enumeration order. */
  method ForEachValue<K, V>(dict: map<K, V>, order: seq<K>) returns (calls: seq<V>)
    requires Enumerates(order, dict.Keys)
    ensures |calls| == |order|
    ensures forall i | 0 <= i < |order| :: calls[i] == dict[order[i]]
  {
    calls := [];
    for i := 0 to |order|
      invariant |calls| == i
      invariant forall j | 0 <= j < i :: calls[j] == dict[order[j]]
    {
      calls := calls + [dict[order[i]]];
    }
  }

  /** Every key's value is acted on once: the calls of ForEachValue, counted per key, are one per key. */
  lemma OncePerKey<K, V>(dict: map<K, V>, order: seq<K>, calls: seq<V>, k: K)
    requires Enumerates(order, dict.Keys) && k in dict
    requires |calls| == |order| && forall i | 0 <= i < |order| :: calls[i] == dict[order[i]]
    ensures exists i | 0 <= i < |order| :: order[i] == k && calls[i] == dict[k] &&
              forall j | 0 <= j < |order| && j != i :: order[j] != k
  {
    var i :| 0 <= i < |order| && order[i] == k;
    forall j | 0 <= j < |order| && j != i ensures order[j] != k {
      if j < i { assert order[j] != order[i]; } else { assert order[i] != order[j]; }
    }
  }

  /** Some element of `values` satisfies `pred`: LINQ's Any. */
  predicate Any<V>(values: seq<V>, pred: V -> bool) {
    exists i | 0 <= i < |values| :: pred(values[i])
  }

  /** Whether some nested collection of `dict` holds an element satisfying `pred`. */
  method AnyAllValues<K, V>(dict: map<K, seq<V>>, order: seq<K>, pred: V -> bool) returns (r: bool)
    requires Enumerates(order, dict.Keys)
    ensures r <==> exists k | k in dict :: Any(dict[k], pred)
  {
    for i := 0 to |order|
      invariant forall j | 0 <= j < i :: !Any(dict[order[j]], pred)
    {
      if Any(dict[order[i]], pred) {
        return true;
      }
    }
    forall k | k in dict ensures !Any(dict[k], pred) {
      var j :| 0 <= j < |order| && order[j] == k;
    }
    return false;
  }

  /** The nested collections of `dict` laid end to end, outer then inner order. */
  ghost function Flatten<K, V>(dict: map<K, seq<V>>, order: seq<K>): seq<V>
    requires forall i | 0 <= i < |order| :: order[i] in dict
  {
    if order == [] then [] else Flatten(dict, order[..|order| - 1]) + dict[order[|order| - 1]]
  }

  /** Some element of the flattened dictionary satisfies `pred` exactly when some nested collection has one that does. */
  lemma {:induction false} FlattenAny<K, V>(dict: map<K, seq<V>>, order: seq<K>, pred: V -> bool)
    requires forall i | 0 <= i < |order| :: order[i] in dict
    ensures Any(Flatten(dict, order), pred) <==> exists i | 0 <= i < |order| :: Any(dict[order[i]], pred)
  {
    if order != [] {
      var init := order[..|order| - 1];
      FlattenAny(dict, init, pred);
      var prev, last := Flatten(dict, init), dict[order[|order| - 1]];
      if Any(prev + last, pred) {
        var j :| 0 <= j < |prev + last| && pred((prev + last)[j]);
        if j < |prev| {
          assert pred(prev[j]);
          var i :| 0 <= i < |init| && Any(dict[init[i]], pred);
          assert init[i] == order[i];
        } else {
          assert pred(last[j - |prev|]);
        }
      }
      if exists i | 0 <= i < |order| :: Any(dict[order[i]], pred) {
        var i :| 0 <= i < |order| && Any(dict[order[i]], pred);
        var n :| 0 <= n < |dict[order[i]]| && pred(dict[order[i]][n]);
        if i < |init| {
          assert init[i] == order[i];
          var j :| 0 <= j < |prev| && pred(prev[j]);
          assert (prev + last)[j] == prev[j];
        } else {
          assert (prev + last)[|prev| + n] == last[n];
        }
      }
    }
  }

  lemma FlattenStep<K, V>(dict: map<K, seq<V>>, order: seq<K>, i: nat)
    requires i < |order| && forall j | 0 <= j < |order| :: order[j] in dict
    ensures Flatten(dict, order[..i + 1]) == Flatten(dict, order[..i]) + dict[order[i]]
  {
    assert order[..i + 1][..i] == order[..i];
  }

  /** `r` is the first element of `flat` satisfying `pred`, or `None` when none does. */
  ghost predicate IsFirst<V>(flat: seq<V>, pred: V -> bool, r: Option<V>) {
    match r
    case None => forall j | 0 <= j < |flat| :: !pred(flat[j])
    case Some(v) =>
      exists i | 0 <= i < |flat| :: flat[i] == v && pred(v) && forall j | 0 <= j < i :: !pred(flat[j])
  }

  /**
   * The first element satisfying `pred` over all nested collections of `dict`,
   * outer then inner order; `None` where the source returns the default value.
   */
  method FirstOrDefaultAllValues<K, V>(dict: map<K, seq<V>>, order: seq<K>, pred: V -> bool) returns (r: Option<V>)
    requires Enumerates(order, dict.Keys)
    ensures IsFirst(Flatten(dict, order), pred, r)
  {
    for i := 0 to |order|
      invariant forall j | 0 <= j < |Flatten(dict, order[..i])| :: !pred(Flatten(dict, order[..i])[j])
    {
      FlattenStep(dict, order, i);
      var collection := dict[order[i]];
      for n := 0 to |collection|
        invariant forall j | 0 <= j < n :: !pred(collection[j])
      {
        if pred(collection[n]) {
          FirstAt(dict, order, pred, i, n);
          return Some(collection[n]);
        }
      }
    }
    assert order[..|order|] == order;
    return None;
  }

  /**
   * A match at position `n` of the collection of the `i`-th key, after no match
   * in the earlier collections nor earlier in this one, is the first match.
   */
  lemma FirstAt<K, V>(dict: map<K, seq<V>>, order: seq<K>, pred: V -> bool, i: nat, n: nat)
    requires i < |order| && forall j | 0 <= j < |order| :: order[j] in dict
    requires forall j | 0 <= j < |Flatten(dict, order[..i])| :: !pred(Flatten(dict, order[..i])[j])
    requires n < |dict[order[i]]| && pred(dict[order[i]][n])
    requires forall j | 0 <= j < n :: !pred(dict[order[i]][j])
    ensures IsFirst(Flatten(dict, order), pred, Some(dict[order[i]][n]))
  {
    var before := Flatten(dict, order[..i]);
    FlattenStep(dict, order, i);
    FlattenPrefix(dict, order, i + 1);
    var flat := Flatten(dict, order);
    assert flat[|before| + n] == dict[order[i]][n];
    forall j | 0 <= j < |before| + n ensures !pred(flat[j]) {
      if j < |before| {
        assert flat[j] == before[j];
      } else {
        assert flat[j] == dict[order[i]][j - |before|];
      }
    }
  }

  /** Flattening a prefix of the keys gives a prefix of the whole flattening. */
  lemma {:induction false} FlattenPrefix<K, V>(dict: map<K, seq<V>>, order: seq<K>, k: nat)
    requires k <= |order| && forall j | 0 <= j < |order| :: order[j] in dict
    ensures Flatten(dict, order[..k]) <= Flatten(dict, order)
    decreases |order| - k
  {
    if k == |order| {
      assert order[..k] == order;
    } else {
      FlattenPrefix(dict, order, k + 1);
      FlattenStep(dict, order, k);
    }
  }

  /**
   * FirstOrDefaultAllValues finds nothing exactly when AnyAllValues is false:
   * the two searches agree on whether a match exists.
   */
  lemma FirstNoneIffNotAny<K, V>(dict: map<K, seq<V>>, order: seq<K>, pred: V -> bool, r: Option<V>)
    requires Enumerates(order, dict.Keys) && IsFirst(Flatten(dict, order), pred, r)
    ensures r.None? <==> !exists k | k in dict :: Any(dict[k], pred)
  {
    FlattenAny(dict, order, pred);
    if exists k | k in dict :: Any(dict[k], pred) {
      var k :| k in dict && Any(dict[k], pred);
      var i :| 0 <= i < |order| && order[i] == k;
    }
  }
}
