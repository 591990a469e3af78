/**
 * Python's insertion-ordered dictionaries (`dict`, `collections.OrderedDict`)
 * as sequences of key/value entries.
 */
module OrderedDict {
  import opened Wrappers

  type Dict<V> = seq<(string, V)>

  function Keys<V>(d: Dict<V>): (ks: seq<string>)
    ensures |ks| == |d| && forall i :: 0 <= i < |d| ==> ks[i] == d[i].0
  {
    seq(|d|, i requires 0 <= i < |d| => d[i].0)
  }

  predicate Distinct(ks: seq<string>) {
    forall i, j :: 0 <= i < j < |ks| ==> ks[i] != ks[j]
  }

  lemma KeysAppend<V>(d: Dict<V>, e: Dict<V>)
    ensures Keys(d + e) == Keys(d) + Keys(e)
  {
  }

  /** Two key sequences without repeats and without a common key join into one without repeats. */
  lemma DistinctAppend(a: seq<string>, b: seq<string>)
    requires Distinct(a) && Distinct(b)
    requires forall i, j :: 0 <= i < |a| && 0 <= j < |b| ==> a[i] != b[j]
    ensures Distinct(a + b)
  {
    var ab := a + b;
    forall i, j | 0 <= i < j < |ab| ensures ab[i] != ab[j] {
      if j < |a| {
        assert ab[i] == a[i] && ab[j] == a[j];
      } else if i < |a| {
        assert ab[i] == a[i] && ab[j] == b[j - |a|];
      } else {
        assert ab[i] == b[i - |a|] && ab[j] == b[j - |a|];
      }
    }
  }

  /** The position of the entry for `k`, if there is one. */
  function IndexOf<V>(d: Dict<V>, k: string): (r: Option<nat>)
    ensures r.Some? ==>
              && r.value < |d| && d[r.value].0 == k
              && forall i :: 0 <= i < r.value ==> d[i].0 != k
    ensures r.None? ==> forall i :: 0 <= i < |d| ==> d[i].0 != k
  {
    if d == [] then None
    else if d[0].0 == k then Some(0)
    else match IndexOf(d[1..], k)
      case None => None
      case Some(i) => Some(i + 1)
  }

  /** `d.get(k)`. */
  function Get<V>(d: Dict<V>, k: string): Option<V> {
    match IndexOf(d, k)
    case None => None
    case Some(i) => Some(d[i].1)
  }

  /** With distinct keys, every entry is found under its own key. */
  lemma GetEntry<V>(d: Dict<V>, i: nat)
    requires Distinct(Keys(d)) && i < |d|
    ensures Get(d, d[i].0) == Some(d[i].1)
  {
    var j := IndexOf(d, d[i].0).value;
    assert j <= i;
    assert Keys(d)[j] == Keys(d)[i];
  }

  /** `d[k] = v`: an existing key keeps its place, a new key goes last. */
  function Put<V>(d: Dict<V>, k: string, v: V): Dict<V>
    decreases |d|
  {
    if d == [] then [(k, v)]
    else if d[0].0 == k then [(k, v)] + d[1..]
    else [d[0]] + Put(d[1..], k, v)
  }

  /** Putting a key that is not there yet appends its entry. */
  lemma {:induction false} PutNew<V>(d: Dict<V>, k: string, v: V)
    requires forall i :: 0 <= i < |d| ==> d[i].0 != k
    ensures Put(d, k, v) == d + [(k, v)]
    decreases |d|
  {
    if d != [] {
      PutNew(d[1..], k, v);
      assert d == [d[0]] + d[1..];
    }
  }

  /** The same, with the keys tracked: the new key goes last. */
  lemma PutAbsent<V>(d: Dict<V>, k: string, v: V)
    requires k !in Keys(d)
    ensures Put(d, k, v) == d + [(k, v)]
    ensures Keys(Put(d, k, v)) == Keys(d) + [k]
  {
    forall i | 0 <= i < |d| ensures d[i].0 != k {
      assert Keys(d)[i] == d[i].0;
    }
    PutNew(d, k, v);
    KeysAppend(d, [(k, v)]);
  }

  /** Putting a key that is there replaces its entry in place. */
  lemma {:induction false} PutExisting<V>(d: Dict<V>, k: string, v: V, i: nat)
    requires IndexOf(d, k) == Some(i)
    ensures Put(d, k, v) == d[i := (k, v)]
    decreases |d|
  {
    if d[0].0 != k {
      PutExisting(d[1..], k, v, i - 1);
      assert d == [d[0]] + d[1..];
    }
  }

  /** After `d[k] = v`, `k` holds `v`, every other key what it held, and the key order is kept. */
  lemma PutProperties<V>(d: Dict<V>, k: string, v: V)
    ensures Get(Put(d, k, v), k) == Some(v)
    ensures forall k' :: k' != k ==> Get(Put(d, k, v), k') == Get(d, k')
    ensures k in Keys(d) ==> Keys(Put(d, k, v)) == Keys(d)
    ensures k !in Keys(d) ==> Keys(Put(d, k, v)) == Keys(d) + [k]
    ensures Distinct(Keys(d)) ==> Distinct(Keys(Put(d, k, v)))
  {
    var r := Put(d, k, v);
    match IndexOf(d, k)
    case None =>
      PutNew(d, k, v);
      assert k !in Keys(d);
      forall k' ensures IndexOf(r, k') ==
        (if IndexOf(d, k').Some? then IndexOf(d, k') else if k' == k then Some(|d|) else None)
      {
        IndexOfAppend(d, (k, v), k');
      }
    case Some(i) =>
      PutExisting(d, k, v, i);
      assert Keys(r) == Keys(d);
      forall k' ensures IndexOf(r, k') == IndexOf(d, k') { IndexOfSameKeys(d, r, k'); }
  }

  lemma {:induction false} IndexOfSameKeys<V>(d: Dict<V>, e: Dict<V>, k: string)
    requires Keys(d) == Keys(e)
    ensures IndexOf(d, k) == IndexOf(e, k)
  {
    if d != [] {
      assert Keys(d[1..]) == Keys(d)[1..] && Keys(e[1..]) == Keys(e)[1..];
      IndexOfSameKeys(d[1..], e[1..], k);
    }
  }

  lemma {:induction false} IndexOfAppend<V>(d: Dict<V>, entry: (string, V), k: string)
    ensures IndexOf(d + [entry], k) ==
      (if IndexOf(d, k).Some? then IndexOf(d, k) else if entry.0 == k then Some(|d|) else None)
  {
    if d != [] {
      assert (d + [entry])[1..] == d[1..] + [entry];
      IndexOfAppend(d[1..], entry, k);
    }
  }

  /** `d.update(e)`: the entries of `e` are put into `d` one by one, in order. */
  function Update<V>(d: Dict<V>, e: Dict<V>): Dict<V>
    decreases |e|
  {
    if e == [] then d else Update(Put(d, e[0].0, e[0].1), e[1..])
  }

  lemma FreshTail<V>(d: Dict<V>, e: Dict<V>)
    requires e != [] && Distinct(Keys(e))
    requires forall i, j :: 0 <= i < |e| && 0 <= j < |d| ==> e[i].0 != d[j].0
    ensures Distinct(Keys(e[1..]))
    ensures forall i, j :: 0 <= i < |e| - 1 && 0 <= j < |d| + 1 ==> e[1..][i].0 != (d + [e[0]])[j].0
  {
    var d', e' := d + [e[0]], e[1..];
    forall i, j | 0 <= i < j < |e'| ensures Keys(e')[i] != Keys(e')[j] {
      assert Keys(e')[i] == Keys(e)[i + 1] && Keys(e')[j] == Keys(e)[j + 1];
    }
    forall i, j | 0 <= i < |e'| && 0 <= j < |d'| ensures e'[i].0 != d'[j].0 {
      assert e'[i] == e[i + 1];
      if j == |d| {
        assert Keys(e)[0] != Keys(e)[i + 1];
      } else {
        assert d'[j] == d[j];
      }
    }
  }

  /**
   * Updating with entries whose keys are distinct and new appends those
   * entries unchanged, after the existing ones.
   */
  lemma {:induction false} UpdateFresh<V>(d: Dict<V>, e: Dict<V>)
    requires Distinct(Keys(e))
    requires forall i, j :: 0 <= i < |e| && 0 <= j < |d| ==> e[i].0 != d[j].0
    ensures Update(d, e) == d + e
    decreases |e|
  {
    if e != [] {
      PutNew(d, e[0].0, e[0].1);
      var d' := d + [e[0]];
      var e' := e[1..];
      FreshTail(d, e);
      UpdateFresh(d', e');
      assert d' + e' == d + e;
    }
  }
}
