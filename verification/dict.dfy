/** A JavaScript `Record<string, V>` used as a dictionary: entries in insertion
    order, an assignment to an existing key overwriting its value in place. */
module Dict {
  import opened Wrappers

  type Dict<V> = seq<(string, V)>

  /** The index of `k`, if present. */
  function IndexOf<V>(d: Dict<V>, k: string): (r: Option<nat>)
    ensures r.Some? ==> r.value < |d| && d[r.value].0 == k
    ensures r.Some? ==> forall j :: 0 <= j < r.value ==> d[j].0 != k
    ensures r.None? ==> forall j :: 0 <= j < |d| ==> d[j].0 != k
  {
    if d == [] then None
    else if d[0].0 == k then Some(0)
    else match IndexOf(d[1..], k)
      case None => None
      case Some(i) => Some(i + 1)
  }

  /** `d[k]`, `undefined` being none. */
  function Get<V>(d: Dict<V>, k: string): Option<V> {
    match IndexOf(d, k)
    case Some(i) => Some(d[i].1)
    case None => None
  }

  function Keys<V>(d: Dict<V>): (ks: seq<string>)
    ensures |ks| == |d| && forall i :: 0 <= i < |d| ==> ks[i] == d[i].0
  {
    seq(|d|, i requires 0 <= i < |d| => d[i].0)
  }

  /** `Object.values(d)` */
  function Values<V>(d: Dict<V>): (vs: seq<V>)
    ensures |vs| == |d| && forall i :: 0 <= i < |d| ==> vs[i] == d[i].1
  {
    seq(|d|, i requires 0 <= i < |d| => d[i].1)
  }

  /** Every key appears once, as it does in a JavaScript object. */
  predicate Unique<V>(d: Dict<V>) {
    forall i, j :: 0 <= i < j < |d| ==> d[i].0 != d[j].0
  }

  /** `d[k] = v` */
  function Set<V>(d: Dict<V>, k: string, v: V): (d': Dict<V>)
    ensures Get(d', k) == Some(v)
    ensures forall k' :: k' != k ==> Get(d', k') == Get(d, k')
    ensures Get(d, k).Some? ==> Keys(d') == Keys(d) && |d'| == |d|
    ensures Get(d, k).None? ==> Keys(d') == Keys(d) + [k] && d' == d + [(k, v)]
    ensures Unique(d) ==> Unique(d')
  {
    match IndexOf(d, k)
    case Some(i) =>
      var d' := d[i := (k, v)];
      assert IndexOf(d', k) == Some(i) by { IndexOfSameKeys(d, d', k); }
      forall k' | k' != k
        ensures Get(d', k') == Get(d, k')
      {
        IndexOfSameKeys(d, d', k');
      }
      d'
    case None =>
      var d' := d + [(k, v)];
      assert IndexOf(d', k) == Some(|d|) by { IndexOfAppend(d, (k, v), k); }
      forall k' | k' != k
        ensures Get(d', k') == Get(d, k')
      {
        IndexOfAppend(d, (k, v), k');
      }
      d'
  }

  lemma {:induction false} IndexOfSameKeys<V>(d: Dict<V>, d': Dict<V>, k: string)
    requires |d| == |d'| && forall i :: 0 <= i < |d| ==> d[i].0 == d'[i].0
    ensures IndexOf(d, k) == IndexOf(d', k)
  {
    if d != [] {
      IndexOfSameKeys(d[1..], d'[1..], k);
    }
  }

  lemma {:induction false} IndexOfAppend<V>(d: Dict<V>, x: (string, V), k: string)
    ensures IndexOf(d + [x], k) ==
      (if IndexOf(d, k).Some? then IndexOf(d, k) else if x.0 == k then Some(|d|) else None)
  {
    if d != [] {
      assert (d + [x])[1..] == d[1..] + [x];
      IndexOfAppend(d[1..], x, k);
    }
  }

  /** A key is present exactly when it is among the keys. */
  lemma GetInKeys<V>(d: Dict<V>, k: string)
    ensures Get(d, k).Some? <==> k in Keys(d)
  {
    if k in Keys(d) {
      var i :| 0 <= i < |Keys(d)| && Keys(d)[i] == k;
      assert d[i].0 == k;
    }
  }

  /** In a dictionary without repeated keys, the value at a position is the one read by its key. */
  lemma GetAt<V>(d: Dict<V>, i: nat)
    requires Unique(d) && i < |d|
    ensures Get(d, d[i].0) == Some(d[i].1)
  {
  }
}
