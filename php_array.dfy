// PHP arrays with string keys: ordered (key, value) pairs. Assigning to an
// existing key overwrites it in place; assigning to a new key appends it.

module PhpArray {
  import opened Wrappers

  type Array<V> = seq<(string, V)>

  predicate HasKey<V>(arr: Array<V>, k: string)
  {
    exists i :: 0 <= i < |arr| && arr[i].0 == k
  }

  predicate DistinctKeys<V>(arr: Array<V>)
  {
    forall i, j :: 0 <= i < j < |arr| ==> arr[i].0 != arr[j].0
  }

  /** `$arr[$k]`, None when the key is absent. */
  function Lookup<V>(arr: Array<V>, k: string): (r: Option<V>)
    ensures r.Some? <==> HasKey(arr, k)
    ensures r.Some? ==> (k, r.value) in arr
    decreases |arr|
  {
    if |arr| == 0 then None
    else if arr[0].0 == k then Some(arr[0].1)
    else
      var r := Lookup(arr[1..], k);
      assert HasKey(arr, k) ==> HasKey(arr[1..], k) by {
        if HasKey(arr, k) {
          var i :| 0 <= i < |arr| && arr[i].0 == k;
          assert arr[1..][i - 1].0 == k;
        }
      }
      assert HasKey(arr[1..], k) ==> HasKey(arr, k) by {
        if HasKey(arr[1..], k) {
          var i :| 0 <= i < |arr[1..]| && arr[1..][i].0 == k;
          assert arr[i + 1].0 == k;
        }
      }
      r
  }

  /** With distinct keys, an entry is present exactly when the lookup finds its value. */
  lemma {:induction false} LookupDistinct<V>(arr: Array<V>, k: string, v: V)
    requires DistinctKeys(arr)
    ensures (k, v) in arr <==> Lookup(arr, k) == Some(v)
    decreases |arr|
  {
    if |arr| > 0 {
      LookupDistinct(arr[1..], k, v);
      assert arr == [arr[0]] + arr[1..];
    }
  }

  /** `$arr[$k] = $v`. */
  function Assign<V>(arr: Array<V>, k: string, v: V): (r: Array<V>)
    ensures HasKey(arr, k) ==> |r| == |arr|
    ensures !HasKey(arr, k) ==> r == arr + [(k, v)]
    ensures forall i :: 0 <= i < |r| ==> r[i].0 == k || (i < |arr| && r[i] == arr[i])
    decreases |arr|
  {
    if |arr| == 0 then [(k, v)]
    else if arr[0].0 == k then [(k, v)] + arr[1..]
    else
      var rest := Assign(arr[1..], k, v);
      assert HasKey(arr[1..], k) <==> HasKey(arr, k) by {
        if HasKey(arr, k) {
          var i :| 0 <= i < |arr| && arr[i].0 == k;
          assert arr[1..][i - 1].0 == k;
        }
        if HasKey(arr[1..], k) {
          var i :| 0 <= i < |arr[1..]| && arr[1..][i].0 == k;
          assert arr[i + 1].0 == k;
        }
      }
      [arr[0]] + rest
  }

  /** After the assignment the key holds the new value and every other key is untouched. */
  lemma {:induction false} AssignLookup<V>(arr: Array<V>, k: string, v: V, k': string)
    ensures Lookup(Assign(arr, k, v), k') == if k' == k then Some(v) else Lookup(arr, k')
    decreases |arr|
  {
    if |arr| > 0 && arr[0].0 != k {
      AssignLookup(arr[1..], k, v, k');
    }
  }

  /** The assignment keeps the keys distinct, and adds exactly the assigned key. */
  lemma {:induction false} AssignKeys<V>(arr: Array<V>, k: string, v: V)
    ensures forall k' :: HasKey(Assign(arr, k, v), k') <==> HasKey(arr, k') || k' == k
    ensures DistinctKeys(arr) ==> DistinctKeys(Assign(arr, k, v))
    decreases |arr|
  {
    var r := Assign(arr, k, v);
    forall k' ensures HasKey(r, k') <==> HasKey(arr, k') || k' == k {
      AssignLookup(arr, k, v, k');
    }
    if DistinctKeys(arr) && |arr| > 0 && arr[0].0 != k {
      AssignKeys(arr[1..], k, v);
      var rest := Assign(arr[1..], k, v);
      assert r == [arr[0]] + rest;
    }
  }
}
