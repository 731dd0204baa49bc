/** Insertion-ordered dictionaries with string keys, as Python's `dict` behaves: the recipe table,
    each recipe, and the per-drink report tables are all of this shape. */
module Tables {

  /** No key occurs twice. */
  predicate DistinctKeys<V>(d: seq<(string, V)>) {
    forall i, j :: 0 <= i < j < |d| ==> d[i].0 != d[j].0
  }

  /** An insertion-ordered dictionary: a sequence of (key, value) pairs with distinct keys. */
  type Dict<V> = d: seq<(string, V)> | DistinctKeys(d) witness []

  /** No element occurs twice. */
  predicate Distinct(s: seq<string>) {
    forall i, j :: 0 <= i < j < |s| ==> s[i] != s[j]
  }

  /** The keys in insertion order (Python's `list(d.keys())`). */
  function Keys<V>(d: seq<(string, V)>): (ks: seq<string>)
    ensures |ks| == |d|
    ensures forall i :: 0 <= i < |d| ==> ks[i] == d[i].0
  {
    seq(|d|, i requires 0 <= i < |d| => d[i].0)
  }

  lemma KeysOfDistinct<V>(d: seq<(string, V)>)
    requires DistinctKeys(d)
    ensures Distinct(Keys(d))
  {
  }

  /** `d[k]` for a key that is present: the value stored under the first occurrence of `k`. */
  function Get<V>(d: seq<(string, V)>, k: string): (v: V)
    requires k in Keys(d)
    ensures (k, v) in d
  {
    if d[0].0 == k then d[0].1
    else
      assert Keys(d) == [d[0].0] + Keys(d[1..]);
      Get(d[1..], k)
  }

  /** Position of `k` among the keys, or -1 when it is absent. */
  function IndexOf<V>(d: seq<(string, V)>, k: string): (i: int)
    ensures -1 <= i < |d|
    ensures 0 <= i ==> d[i].0 == k
    ensures i == -1 <==> k !in Keys(d)
  {
    if |d| == 0 then -1
    else if d[0].0 == k then 0
    else
      assert Keys(d) == [d[0].0] + Keys(d[1..]);
      var j := IndexOf(d[1..], k);
      if j < 0 then -1 else j + 1
  }

  /** The names in `r` appear in the same relative order as the keys of `d`. */
  predicate InKeyOrder<V>(r: seq<string>, d: seq<(string, V)>) {
    forall a, b :: 0 <= a < b < |r| ==> IndexOf(d, r[a]) < IndexOf(d, r[b])
  }

  /** `d[k] = v`: an existing key keeps its position and takes the new value; a new key goes last. */
  function Put<V>(d: Dict<V>, k: string, v: V): (r: Dict<V>)
    ensures k in Keys(d) ==> Keys(r) == Keys(d)
    ensures k !in Keys(d) ==> Keys(r) == Keys(d) + [k]
    ensures k in Keys(r) && Get(r, k) == v
    ensures forall k' :: k' != k && k' in Keys(d) ==> k' in Keys(r) && Get(r, k') == Get(d, k')
  {
    if k in Keys(d) then
      var i := IndexOf(d, k);
      var r := d[i := (k, v)];
      assert Keys(r) == Keys(d);
      r
    else
      var r := d + [(k, v)];
      assert Keys(r) == Keys(d) + [k];
      r
  }

  /** `d[k] = []` on a dictionary whose values are all empty: only the key order matters. */
  function AddKey(ks: seq<string>, k: string): (r: seq<string>)
    ensures forall x :: x in r <==> x in ks || x == k
    ensures Distinct(ks) ==> Distinct(r)
    ensures k !in ks ==> r == ks + [k]
    ensures k in ks ==> r == ks
  {
    if k in ks then ks else ks + [k]
  }
}
