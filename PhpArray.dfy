/**
 * A PHP array with integer keys, as `getLinks` builds it: an ordered list of
 * key/value entries. Assigning `$a[$k] = $v` replaces the value of an
 * existing key in place and appends a new key at the end.
 */
module PhpArray {
  import opened Wrappers

  type Entries<V> = seq<(int, V)>

  function Keys<V>(m: Entries<V>): (r: seq<int>)
    ensures |r| == |m|
    ensures forall i :: 0 <= i < |m| ==> r[i] == m[i].0
  {
    if m == [] then [] else [m[0].0] + Keys(m[1..])
  }

  /** The values in order: what `implode` and `foreach` see. */
  function Values<V>(m: Entries<V>): (r: seq<V>)
    ensures |r| == |m|
    ensures forall i :: 0 <= i < |m| ==> r[i] == m[i].1
  {
    if m == [] then [] else [m[0].1] + Values(m[1..])
  }

  /** The keys of two arrays appended are the keys of each, in order. */
  lemma KeysConcat<V>(a: Entries<V>, b: Entries<V>)
    ensures Keys(a + b) == Keys(a) + Keys(b)
  {
    var l, r := Keys(a + b), Keys(a) + Keys(b);
    assert |l| == |r|;
    forall i | 0 <= i < |l| ensures l[i] == r[i] {
      if i < |a| {
        assert (a + b)[i] == a[i];
      } else {
        assert (a + b)[i] == b[i - |a|];
      }
    }
  }

  /** No key occurs twice: PHP arrays never hold duplicate keys. */
  predicate DistinctKeys<V>(m: Entries<V>) {
    forall i, j :: 0 <= i < j < |m| ==> Keys(m)[i] != Keys(m)[j]
  }

  /** `$m[$k] ?? null`. */
  function Lookup<V>(m: Entries<V>, k: int): (r: Option<V>)
    ensures r.None? <==> k !in Keys(m)
  {
    if m == [] then None
    else if m[0].0 == k then Some(m[0].1)
    else Lookup(m[1..], k)
  }

  /** `$m[$k] = $v`: the key keeps its place if present and is appended otherwise. */
  function Put<V>(m: Entries<V>, k: int, v: V): (r: Entries<V>)
    ensures Keys(r) == if k in Keys(m) then Keys(m) else Keys(m) + [k]
    ensures k !in Keys(m) ==> r == m + [(k, v)]
  {
    if m == [] then [(k, v)]
    else if m[0].0 == k then [(k, v)] + m[1..]
    else [m[0]] + Put(m[1..], k, v)
  }

  /** After `$m[$k] = $v`, `$m[$k]` is `v` and every other key reads as before. */
  lemma {:induction false} LookupPut<V>(m: Entries<V>, k: int, v: V, k': int)
    ensures Lookup(Put(m, k, v), k') == if k' == k then Some(v) else Lookup(m, k')
  {
    if m != [] && m[0].0 != k {
      LookupPut(m[1..], k, v, k');
    }
  }

  /** Assignment never creates a duplicate key. */
  lemma PutKeepsKeysDistinct<V>(m: Entries<V>, k: int, v: V)
    requires DistinctKeys(m)
    ensures DistinctKeys(Put(m, k, v))
  {
  }
}
