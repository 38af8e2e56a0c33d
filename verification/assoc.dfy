/** Python dictionaries with string keys, as association lists in insertion
    order: lookups, assignment (`d[k] = v` keeps an existing key's place and
    appends a new one), and the key list `d.keys()`. */
module AssocLists {

  type Assoc<V> = seq<(string, V)>

  predicate Has<V>(d: Assoc<V>, k: string) {
    exists i :: 0 <= i < |d| && d[i].0 == k
  }

  /** No key appears twice, as in a dictionary. */
  ghost predicate UniqueKeys<V>(d: Assoc<V>) {
    forall i, j :: 0 <= i < j < |d| ==> d[i].0 != d[j].0
  }

  /** The position of the first pair with key `k`. */
  function IndexOf<V>(d: Assoc<V>, k: string): (i: nat)
    requires Has(d, k)
    ensures i < |d| && d[i].0 == k
    ensures forall j :: 0 <= j < i ==> d[j].0 != k
    decreases |d|
  {
    if d[0].0 == k then 0
    else
      assert Has(d[1..], k) by {
        var i :| 0 <= i < |d| && d[i].0 == k;
        assert d[1..][i - 1].0 == k;
      }
      1 + IndexOf(d[1..], k)
  }

  /** `d[k]` for a present key. The pair it comes from is an element of `d`,
      which lets recursive walks over trees of dictionaries terminate. */
  function Find<V>(d: Assoc<V>, k: string): (v: V)
    requires Has(d, k)
    ensures (k, v) in d
    ensures UniqueKeys(d) ==> forall i :: 0 <= i < |d| && d[i].0 == k ==> d[i].1 == v
  {
    d[IndexOf(d, k)].1
  }

  /** `d[k] = v`: an existing key keeps its place, a new one goes last. */
  function Put<V>(d: Assoc<V>, k: string, v: V): (r: Assoc<V>)
    ensures Has(r, k) && Find(r, k) == v
    ensures forall k' :: Has(r, k') <==> Has(d, k') || k' == k
    ensures forall k' :: k' != k && Has(d, k') ==> Find(r, k') == Find(d, k')
    ensures Keys(r) == if Has(d, k) then Keys(d) else Keys(d) + [k]
    ensures UniqueKeys(d) ==> UniqueKeys(r)
  {
    if Has(d, k) then
      var r := d[IndexOf(d, k) := (k, v)];
      PutExisting(d, k, v, r);
      r
    else
      var r := d + [(k, v)];
      PutNew(d, k, v, r);
      r
  }

  /** Overwriting the first pair of a present key. */
  lemma PutExisting<V>(d: Assoc<V>, k: string, v: V, r: Assoc<V>)
    requires Has(d, k)
    requires r == d[IndexOf(d, k) := (k, v)]
    ensures Has(r, k) && Find(r, k) == v
    ensures forall k' :: Has(r, k') <==> Has(d, k') || k' == k
    ensures forall k' :: k' != k && Has(d, k') ==> Find(r, k') == Find(d, k')
    ensures Keys(r) == Keys(d)
    ensures UniqueKeys(d) ==> UniqueKeys(r)
  {
    var p := IndexOf(d, k);
    assert r[p] == (k, v);
    assert IndexOf(r, k) == p;
    forall k' | k' != k && Has(d, k')
      ensures Has(r, k') && IndexOf(r, k') == IndexOf(d, k')
    {
      var q := IndexOf(d, k');
      assert r[q] == d[q];
    }
    forall k' | Has(r, k')
      ensures Has(d, k') || k' == k
    {
      var q := IndexOf(r, k');
      if q != p { assert d[q].0 == k'; }
    }
  }

  /** Appending a pair with a new key. */
  lemma PutNew<V>(d: Assoc<V>, k: string, v: V, r: Assoc<V>)
    requires !Has(d, k)
    requires r == d + [(k, v)]
    ensures Has(r, k) && Find(r, k) == v
    ensures forall k' :: Has(r, k') <==> Has(d, k') || k' == k
    ensures forall k' :: k' != k && Has(d, k') ==> Find(r, k') == Find(d, k')
    ensures Keys(r) == Keys(d) + [k]
    ensures UniqueKeys(d) ==> UniqueKeys(r)
  {
    assert r[|d|] == (k, v);
    assert IndexOf(r, k) == |d|;
    forall k' | k' != k && Has(d, k')
      ensures Has(r, k') && IndexOf(r, k') == IndexOf(d, k')
    {
      var q := IndexOf(d, k');
      assert r[q] == d[q];
    }
    forall k' | Has(r, k')
      ensures Has(d, k') || k' == k
    {
      var q := IndexOf(r, k');
      if q != |d| { assert d[q].0 == k'; }
    }
  }

  /** Assigning a key the value it already has changes nothing. */
  lemma PutSame<V>(d: Assoc<V>, k: string)
    requires Has(d, k)
    ensures Put(d, k, Find(d, k)) == d
  {
    assert d[IndexOf(d, k) := (k, Find(d, k))] == d;
  }

  /** `list(d.keys())`. */
  function Keys<V>(d: Assoc<V>): (ks: seq<string>)
    ensures |ks| == |d|
    ensures forall i :: 0 <= i < |d| ==> ks[i] == d[i].0
  {
    seq(|d|, i requires 0 <= i < |d| => d[i].0)
  }

  /** A key is present exactly when it is listed by `Keys`. */
  lemma HasIffInKeys<V>(d: Assoc<V>, k: string)
    ensures Has(d, k) <==> k in Keys(d)
  {
    if k in Keys(d) {
      var i :| 0 <= i < |d| && Keys(d)[i] == k;
    }
  }
}
