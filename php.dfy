/**
 * The PHP values the core passes around.
 *
 * A PHP array is an ordered hash map: `OrderedMap` keeps the keys in
 * insertion order beside the key-to-value map. Assigning `$a[$k] = $v` to an
 * existing key replaces the value and keeps the key's position; a new key is
 * appended. A list (`[x, y]`, `$a[] = x`) is the same structure with the keys
 * "0", "1", ...; PHP normalises integer-looking string keys to integers, so
 * keys are kept as their decimal strings throughout.
 */
module Php {
  import opened Strings

  datatype Option<+T> = None | Some(value: T)

  datatype Result<+T> = Ok(value: T) | Err(message: string)

  // ---------------------------------------------------------------------------
  // Ordered maps (PHP arrays)

  datatype OrderedMap<V> = OrderedMap(keys: seq<string>, vals: map<string, V>)

  predicate Distinct(ks: seq<string>) {
    forall i, j :: 0 <= i < j < |ks| ==> ks[i] != ks[j]
  }

  /** Keys are listed once each, and exactly the mapped keys are listed. */
  ghost predicate Wf<V>(m: OrderedMap<V>) {
    Distinct(m.keys) && forall k :: k in m.vals <==> k in m.keys
  }

  function EmptyMap<V>(): (m: OrderedMap<V>)
    ensures Wf(m) && m.keys == []
  {
    OrderedMap([], map[])
  }

  predicate Has<V>(m: OrderedMap<V>, k: string) { k in m.vals }

  function Get<V>(m: OrderedMap<V>, k: string): Option<V> {
    if k in m.vals then Some(m.vals[k]) else None
  }

  /** `$m[$k] = $v`. */
  function Put<V>(m: OrderedMap<V>, k: string, v: V): OrderedMap<V> {
    if k in m.vals then OrderedMap(m.keys, m.vals[k := v])
    else OrderedMap(m.keys + [k], m.vals[k := v])
  }

  /** `unset($m[$k])`: the key leaves both the order and the map. */
  function Remove<V>(m: OrderedMap<V>, k: string): OrderedMap<V> {
    OrderedMap(RemoveKey(m.keys, k), m.vals - {k})
  }

  function RemoveKey(ks: seq<string>, k: string): (r: seq<string>)
    ensures forall x :: x in r <==> x in ks && x != k
    ensures |r| <= |ks|
  {
    if ks == [] then []
    else if ks[0] == k then RemoveKey(ks[1..], k)
    else [ks[0]] + RemoveKey(ks[1..], k)
  }

  /** The stored value of `k` is `v` afterwards. */
  lemma PutGet<V>(m: OrderedMap<V>, k: string, v: V)
    ensures Get(Put(m, k, v), k) == Some(v)
  {
  }

  /** Every other key keeps its value. */
  lemma PutOther<V>(m: OrderedMap<V>, k: string, v: V, k': string)
    requires k' != k
    ensures Get(Put(m, k, v), k') == Get(m, k')
  {
  }

  /**
   * Re-assigning an existing key keeps every key at its position; a new key
   * goes to the end. Well-formedness is preserved.
   */
  lemma PutOrder<V>(m: OrderedMap<V>, k: string, v: V)
    requires Wf(m)
    ensures Wf(Put(m, k, v))
    ensures Has(m, k) ==> Put(m, k, v).keys == m.keys
    ensures !Has(m, k) ==> Put(m, k, v).keys == m.keys + [k]
  {
  }

  /**
   * A foreach that copies `keys` one by one from `target` has, after `i`
   * turns, the first `i` keys in order, each with its target value.
   */
  ghost predicate BuiltUpTo<V>(keys: seq<string>, target: map<string, V>, r: OrderedMap<V>, i: nat)
    requires i <= |keys|
  {
    && r.keys == keys[..i]
    && (forall k :: k in r.vals <==> k in keys[..i])
    && (forall k :: k in r.vals ==> k in target && r.vals[k] == target[k])
  }

  /** One more turn of such a foreach puts the next key at the end. */
  lemma PutNext<V>(keys: seq<string>, target: map<string, V>, r: OrderedMap<V>, i: nat)
    requires Distinct(keys) && i < |keys| && keys[i] in target
    requires BuiltUpTo(keys, target, r, i)
    ensures BuiltUpTo(keys, target, Put(r, keys[i], target[keys[i]]), i + 1)
  {
    var key := keys[i];
    assert key !in keys[..i];
    assert keys[..i + 1] == keys[..i] + [key];
  }

  lemma {:induction false} RemoveKeyDistinct(ks: seq<string>, k: string)
    requires Distinct(ks)
    ensures Distinct(RemoveKey(ks, k))
  {
    if ks != [] {
      var tail := ks[1..];
      assert Distinct(tail) by {
        forall i, j | 0 <= i < j < |tail| ensures tail[i] != tail[j] {
          assert tail[i] == ks[i + 1] && tail[j] == ks[j + 1];
        }
      }
      RemoveKeyDistinct(tail, k);
      var rest := RemoveKey(tail, k);
      if ks[0] != k {
        assert ks[0] !in tail by {
          forall i | 0 <= i < |tail| ensures tail[i] != ks[0] {
            assert tail[i] == ks[i + 1];
          }
        }
        var r := [ks[0]] + rest;
        assert RemoveKey(ks, k) == r;
        forall i, j | 0 <= i < j < |r| ensures r[i] != r[j] {
          assert r[j] == rest[j - 1] && rest[j - 1] in rest;
          if i > 0 {
            assert r[i] == rest[i - 1];
          }
        }
      }
    }
  }

  /** After `unset`, the key is gone, every other entry is as it was, and the map stays well formed. */
  lemma RemoveSpec<V>(m: OrderedMap<V>, k: string)
    requires Wf(m)
    ensures Wf(Remove(m, k)) && !Has(Remove(m, k), k)
    ensures forall k' :: k' != k ==> Get(Remove(m, k), k') == Get(m, k')
  {
    RemoveKeyDistinct(m.keys, k);
  }

  /** `$a[] = $v` on a list of n elements: the new key is "n". */
  function Append<V>(m: OrderedMap<V>, v: V): OrderedMap<V> {
    Put(m, NatToString(|m.keys|), v)
  }

  /** The keys "0", "1", ..., of a list of n elements. */
  function ListKeys(n: nat): (r: seq<string>)
    ensures |r| == n && forall i :: 0 <= i < n ==> r[i] == NatToString(i)
  {
    seq(n, i requires 0 <= i < n => NatToString(i))
  }

  function ListVals<V>(items: seq<V>): map<string, V>
    decreases |items|
  {
    if items == [] then map[]
    else ListVals(items[..|items| - 1])[NatToString(|items| - 1) := items[|items| - 1]]
  }

  /** The array literal `[keys[0] => vals[0], keys[1] => vals[1], ...]` with distinct keys. */
  function Obj<V>(keys: seq<string>, vals: seq<V>): OrderedMap<V>
    requires |keys| == |vals| && Distinct(keys)
  {
    OrderedMap(keys, map i | 0 <= i < |keys| :: keys[i] := vals[i])
  }

  /** An array literal is well formed, lists its keys in order and holds each value under its key. */
  lemma ObjSpec<V>(keys: seq<string>, vals: seq<V>, i: nat)
    requires |keys| == |vals| && Distinct(keys) && i < |keys|
    ensures Wf(Obj(keys, vals)) && Obj(keys, vals).keys == keys
    ensures keys[i] in Obj(keys, vals).vals && Obj(keys, vals).vals[keys[i]] == vals[i]
  {
    var m := Obj(keys, vals).vals;
    forall k | k in keys ensures k in m {
      var j :| 0 <= j < |keys| && keys[j] == k;
    }
  }

  /** The PHP list `[items[0], items[1], ...]`. */
  function ListOf<V>(items: seq<V>): OrderedMap<V> {
    OrderedMap(ListKeys(|items|), ListVals(items))
  }

  lemma ListValsSpec<V>(items: seq<V>)
    ensures forall k :: k in ListVals(items) <==> k in ListKeys(|items|)
    ensures forall i :: 0 <= i < |items| ==> ListVals(items)[NatToString(i)] == items[i]
  {
    ListValsKeys(items);
    forall i | 0 <= i < |items| ensures ListVals(items)[NatToString(i)] == items[i] {
      ListValsAt(items, i);
    }
  }

  /** A list's keys are "0" up to its length less one. */
  lemma {:induction false} ListValsKeys<V>(items: seq<V>)
    ensures forall k :: k in ListVals(items) <==> k in ListKeys(|items|)
    decreases |items|
  {
    if items != [] {
      var n := |items| - 1;
      ListValsKeys(items[..n]);
      assert ListKeys(n + 1) == ListKeys(n) + [NatToString(n)];
    }
  }

  /** A list holds its i-th element under the key "i". */
  lemma {:induction false} ListValsAt<V>(items: seq<V>, i: nat)
    requires i < |items|
    ensures NatToString(i) in ListVals(items) && ListVals(items)[NatToString(i)] == items[i]
    decreases |items|
  {
    var n := |items| - 1;
    if i < n {
      ListValsAt(items[..n], i);
      NatToStringDistinct(i, n);
    }
  }

  /** A list holds its elements under the keys "0", "1", ..., in that order, and is well formed. */
  lemma ListOfSpec<V>(items: seq<V>)
    ensures Wf(ListOf(items)) && ListOf(items).keys == ListKeys(|items|)
    ensures forall i :: 0 <= i < |items| ==> Get(ListOf(items), NatToString(i)) == Some(items[i])
  {
    ListValsSpec(items);
    forall i, j | 0 <= i < j < |items| ensures NatToString(i) != NatToString(j) {
      if NatToString(i) == NatToString(j) { NatToStringInjective(i, j); }
    }
  }

  /** The values of a map, in key order. */
  function ValuesInOrder<V>(m: OrderedMap<V>): (r: seq<V>)
    requires Wf(m)
    ensures |r| == |m.keys|
    ensures forall i :: 0 <= i < |r| ==> r[i] == m.vals[m.keys[i]]
  {
    seq(|m.keys|, i requires 0 <= i < |m.keys| => m.vals[m.keys[i]])
  }

  // ---------------------------------------------------------------------------
  // Values

  /** PHP values as the core sees them (floats and objects are not modelled). */
  datatype Value = VNull | VBool(b: bool) | VInt(i: int) | VStr(s: string) | VArr(a: OrderedMap<Value>)

  type PhpArray = OrderedMap<Value>

  /** Every array in a value is well formed (keys distinct and exactly the mapped ones). */
  ghost predicate DeepWf(v: Value)
    decreases v
  {
    match v
    case VArr(a) => Wf(a) && forall k :: k in a.vals ==> DeepWf(a.vals[k])
    case _ => true
  }

  /** `empty($x)` for a value that is set: null, false, 0, "", "0" and the empty array. */
  predicate IsEmpty(v: Value) {
    match v
    case VNull => true
    case VBool(b) => !b
    case VInt(i) => i == 0
    case VStr(s) => s == "" || s == "0"
    case VArr(a) => a.keys == []
  }

  /** PHP's boolean conversion (`if ($x)`, `$x ?: ...`): the values that are not empty. */
  predicate Truthy(v: Value) { !IsEmpty(v) }

  /** `isset($a[$k])`: the key is present and its value is not null. */
  predicate IsSet(a: PhpArray, k: string) {
    k in a.vals && a.vals[k] != VNull
  }

  /** `$a[$k] ?? $d`. */
  function Coalesce(a: PhpArray, k: string, d: Value): (r: Value)
    ensures IsSet(a, k) ==> r == a.vals[k]
    ensures !IsSet(a, k) ==> r == d
  {
    if IsSet(a, k) then a.vals[k] else d
  }

  /** `empty($a[$k])` on a possibly missing key. */
  predicate MissingOrEmpty(a: PhpArray, k: string) {
    k !in a.vals || IsEmpty(a.vals[k])
  }

  /** A list of strings as a PHP value. */
  function StringList(items: seq<string>): (v: Value)
  {
    VArr(ListOf(seq(|items|, i requires 0 <= i < |items| => VStr(items[i]))))
  }

  /**
   * The string a scalar turns into when passed to a `string` parameter in
   * PHP's coercive mode; arrays raise a TypeError (None).
   */
  function TextOf(v: Value): Option<string> {
    match v
    case VNull => Some("")
    case VBool(b) => Some(if b then "1" else "")
    case VInt(i) => Some(IntToString(i))
    case VStr(s) => Some(s)
    case VArr(_) => None
  }
}
