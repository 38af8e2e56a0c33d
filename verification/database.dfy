/** The timestamped key-value store (`Database`): every write is stamped by one
    global counter and appended to the key's history; a read asks for the value
    a key held at or before a given logical time, found with `bisect_right`
    over the history's timestamps. */
module InMemoryDatabase {
  import opened Wrappers
  import opened Seqs

  /** One write: its logical timestamp and the value written. */
  datatype Entry<V> = Entry(stamp: int, val: V)

  /** `store` maps each written key to its history; `currentTimestamp` is the
      stamp of the latest write (0 before any). */
  datatype Database<K, V> = Database(store: map<K, seq<Entry<V>>>, currentTimestamp: int)

  /** The timestamps of a history, in order (`[item[0] for item in history]`). */
  function Stamps<V>(h: seq<Entry<V>>): (ts: seq<int>)
    ensures |ts| == |h|
    ensures forall i :: 0 <= i < |h| ==> ts[i] == h[i].stamp
  {
    seq(|h|, i requires 0 <= i < |h| => h[i].stamp)
  }

  /** The invariant every reachable store keeps: histories are non-empty and
      strictly increasing in time, every stamp was issued by the counter, and
      no stamp is shared between two keys. */
  ghost predicate Valid<K, V>(db: Database<K, V>) {
    && db.currentTimestamp >= 0
    && (forall k :: k in db.store ==> |db.store[k]| > 0)
    && (forall k, i :: k in db.store && 0 <= i < |db.store[k]| ==>
          1 <= db.store[k][i].stamp <= db.currentTimestamp)
    && (forall k, i, j :: k in db.store && 0 <= i < j < |db.store[k]| ==>
          db.store[k][i].stamp < db.store[k][j].stamp)
    && (forall k1, k2, i, j ::
          k1 in db.store && k2 in db.store && k1 != k2 &&
          0 <= i < |db.store[k1]| && 0 <= j < |db.store[k2]| ==>
          db.store[k1][i].stamp != db.store[k2][j].stamp)
  }

  /** The reference meaning of a read: the value of the last entry of `h`
      whose stamp is at most `t`, or `None` when there is no such entry. */
  function LastAtOrBefore<V>(h: seq<Entry<V>>, t: int): (r: Option<V>)
    ensures r.None? <==> forall i :: 0 <= i < |h| ==> h[i].stamp > t
    ensures r.Some? ==> exists i :: 0 <= i < |h| && h[i].stamp <= t && h[i].val == r.value &&
                                     forall j :: i < j < |h| ==> h[j].stamp > t
    decreases |h|
  {
    if |h| == 0 then None
    else if h[|h| - 1].stamp <= t then Some(h[|h| - 1].val)
    else
      var earlier := h[..|h| - 1];
      assert forall i :: 0 <= i < |earlier| ==> earlier[i] == h[i];
      LastAtOrBefore(earlier, t)
  }

  /** `Database()`: no history and a counter at 0. */
  function Init<K, V>(): (db: Database<K, V>)
    ensures Valid(db)
    ensures db.currentTimestamp == 0 && db.store.Keys == {}
  {
    Database(map[], 0)
  }

  /** A fresh store answers `None` to every read. */
  lemma InitReadsNone<K, V>(key: K, t: int)
    ensures Get(Init<K, V>(), key, t) == None
  {
  }

  /** `set(key, val)`: advance the counter and append one entry stamped with
      it to the key's history, creating the history when the key is new. */
  function Set<K, V>(db: Database<K, V>, key: K, val: V): (db': Database<K, V>)
    ensures db'.currentTimestamp == db.currentTimestamp + 1
    ensures key in db'.store
    ensures db'.store[key] == (if key in db.store then db.store[key] else []) + [Entry(db'.currentTimestamp, val)]
    ensures db'.store.Keys == db.store.Keys + {key}
    ensures forall k :: k != key && k in db.store ==> db'.store[k] == db.store[k]
  {
    var stamp := db.currentTimestamp + 1;
    var history := if key in db.store then db.store[key] else [];
    Database(db.store[key := history + [Entry(stamp, val)]], stamp)
  }

  /** The loop of `bisect.bisect_right(a, x, lo, hi)`. On a sorted `a` whose
      prefix before `lo` is at most `x` and whose suffix from `hi` exceeds `x`,
      the result splits `a` into the elements at most `x` and those above. */
  function BisectRightFrom(a: seq<int>, x: int, lo: nat, hi: nat): (idx: nat)
    requires lo <= hi <= |a|
    ensures lo <= idx <= hi
    ensures (&& Sorted(a)
             && (forall i :: 0 <= i < lo ==> a[i] <= x)
             && (forall i :: hi <= i < |a| ==> a[i] > x))
            ==>
            && (forall i :: 0 <= i < idx ==> a[i] <= x)
            && (forall i :: idx <= i < |a| ==> a[i] > x)
    decreases hi - lo
  {
    if lo < hi then
      var mid := (lo + hi) / 2;
      if x < a[mid] then BisectRightFrom(a, x, lo, mid)
      else BisectRightFrom(a, x, mid + 1, hi)
    else lo
  }

  /** `bisect.bisect_right(a, x)`: on a sorted `a`, the number of elements at most `x`. */
  function BisectRight(a: seq<int>, x: int): (idx: nat)
    ensures idx <= |a|
    ensures Sorted(a) ==> forall i :: 0 <= i < idx ==> a[i] <= x
    ensures Sorted(a) ==> forall i :: idx <= i < |a| ==> a[i] > x
  {
    BisectRightFrom(a, x, 0, |a|)
  }

  /** `get(key, timestamp)`. For a key never written the answer is `None`;
      otherwise, on a history in time order, it is the value of the last
      entry stamped at or before `timestamp` (`None` if the query precedes
      the whole history). */
  function Get<K, V>(db: Database<K, V>, key: K, timestamp: int): (r: Option<V>)
    ensures key !in db.store ==> r == None
    ensures key in db.store && Sorted(Stamps(db.store[key])) ==>
              r == LastAtOrBefore(db.store[key], timestamp)
  {
    if key !in db.store then None
    else
      var history := db.store[key];
      var idx := BisectRight(Stamps(history), timestamp);
      BisectIndexSelectsLast(history, timestamp);
      if idx == 0 then None else Some(history[idx - 1].val)
  }

  /** The bisection index picks the entry `LastAtOrBefore` describes. */
  lemma {:induction false} BisectSelectsLast<V>(h: seq<Entry<V>>, t: int, idx: nat)
    requires idx <= |h|
    requires forall i :: 0 <= i < idx ==> h[i].stamp <= t
    requires forall i :: idx <= i < |h| ==> h[i].stamp > t
    ensures LastAtOrBefore(h, t) == (if idx == 0 then None else Some(h[idx - 1].val))
    decreases |h|
  {
    if |h| > 0 && idx < |h| {
      BisectSelectsLast(h[..|h| - 1], t, idx);
    }
  }

  /** On a history in time order, the index `bisect_right` computes over its
      stamps picks the entry `LastAtOrBefore` describes. */
  lemma BisectIndexSelectsLast<V>(h: seq<Entry<V>>, t: int)
    ensures var idx := BisectRight(Stamps(h), t);
            Sorted(Stamps(h)) ==>
              LastAtOrBefore(h, t) == (if idx == 0 then None else Some(h[idx - 1].val))
  {
    var ts := Stamps(h);
    var idx := BisectRight(ts, t);
    if Sorted(ts) {
      BisectSelectsLast(h, t, idx);
    }
  }

  /** In a valid store every history is in time order, so `Get` answers as `LastAtOrBefore`. */
  lemma ValidHistoriesSorted<K, V>(db: Database<K, V>, key: K)
    requires Valid(db) && key in db.store
    ensures Sorted(Stamps(db.store[key]))
  {
  }

  /** `set` keeps the store invariant. */
  lemma SetPreservesValid<K, V>(db: Database<K, V>, key: K, val: V)
    requires Valid(db)
    ensures Valid(Set(db, key, val))
  {
    var db' := Set(db, key, val);
    var n := db'.currentTimestamp;
    forall k1, k2, i, j |
      k1 in db'.store && k2 in db'.store && k1 != k2 &&
      0 <= i < |db'.store[k1]| && 0 <= j < |db'.store[k2]|
      ensures db'.store[k1][i].stamp != db'.store[k2][j].stamp
    {
      if k1 == key && i == |db'.store[k1]| - 1 {
        assert db'.store[k2][j] == db.store[k2][j];
      } else if k2 == key && j == |db'.store[k2]| - 1 {
        assert db'.store[k1][i] == db.store[k1][i];
      } else {
        assert db'.store[k1][i] == db.store[k1][i];
        assert db'.store[k2][j] == db.store[k2][j];
      }
    }
  }

  /** A read after `set(key, val)` at or after the new stamp sees `val`. */
  lemma GetAfterSetSeesNewValue<K, V>(db: Database<K, V>, key: K, val: V, t: int)
    requires Valid(db)
    requires t >= db.currentTimestamp + 1
    ensures Get(Set(db, key, val), key, t) == Some(val)
  {
    var db' := Set(db, key, val);
    SetPreservesValid(db, key, val);
    ValidHistoriesSorted(db', key);
  }

  /** A read of the written key before the new stamp is as it was before the write. */
  lemma GetAfterSetEarlierUnchanged<K, V>(db: Database<K, V>, key: K, val: V, t: int)
    requires Valid(db)
    requires t < db.currentTimestamp + 1
    ensures Get(Set(db, key, val), key, t) == Get(db, key, t)
  {
    var db' := Set(db, key, val);
    SetPreservesValid(db, key, val);
    ValidHistoriesSorted(db', key);
    var h' := db'.store[key];
    var h := if key in db.store then db.store[key] else [];
    assert h'[..|h'| - 1] == h;
    assert LastAtOrBefore(h', t) == LastAtOrBefore(h, t);
    if key in db.store {
      ValidHistoriesSorted(db, key);
    }
  }

  /** A write to one key leaves every read of every other key unchanged. */
  lemma GetAfterSetOtherUnchanged<K, V>(db: Database<K, V>, key: K, val: V, other: K, t: int)
    requires other != key
    ensures Get(Set(db, key, val), other, t) == Get(db, other, t)
  {
  }

  /** Reads are monotone in time: a later query selects an entry no earlier
      in the history than an earlier query does. */
  lemma BisectMonotone(a: seq<int>, t1: int, t2: int)
    requires Sorted(a) && t1 <= t2
    ensures BisectRight(a, t1) <= BisectRight(a, t2)
  {
    var i1, i2 := BisectRight(a, t1), BisectRight(a, t2);
    if i2 < |a| {
      // The entry at the later index is above `t2`, hence above `t1`, so the
      // earlier bisection stops at or before it.
      assert a[i2] > t2;
    }
  }

  /** Replaying writes from a fresh store. */
  function Replay<K, V>(writes: seq<(K, V)>): Database<K, V>
    decreases |writes|
  {
    if |writes| == 0 then Init()
    else
      var last := writes[|writes| - 1];
      Set(Replay(writes[..|writes| - 1]), last.0, last.1)
  }

  /** After `n` writes the counter is `n`, the store is valid, and the
      `i`-th write (from 1) sits in its key's history with stamp `i`. */
  lemma {:induction false} ReplayStamps<K, V>(writes: seq<(K, V)>)
    ensures Replay(writes).currentTimestamp == |writes|
    ensures Valid(Replay(writes))
    ensures forall i :: 0 <= i < |writes| ==>
              writes[i].0 in Replay(writes).store &&
              Entry(i + 1, writes[i].1) in Replay(writes).store[writes[i].0]
    decreases |writes|
  {
    if |writes| > 0 {
      var prefix := writes[..|writes| - 1];
      ReplayStamps(prefix);
      var last := writes[|writes| - 1];
      SetPreservesValid(Replay(prefix), last.0, last.1);
      forall i | 0 <= i < |writes|
        ensures writes[i].0 in Replay(writes).store &&
                Entry(i + 1, writes[i].1) in Replay(writes).store[writes[i].0]
      {
        if i < |writes| - 1 {
          assert writes[i] == prefix[i];
          var h := Replay(prefix).store[writes[i].0];
          var e := Entry(i + 1, writes[i].1);
          assert e in h;
          if writes[i].0 != last.0 {
            assert Replay(writes).store[writes[i].0] == h;
          } else {
            assert Replay(writes).store[writes[i].0] == h + [Entry(|writes|, last.1)];
          }
        }
      }
    }
  }

  /** Keys and values of mixed Python types, for the demonstration. */
  datatype PyValue = PyInt(i: int) | PyStr(s: string)

  /** The store after the demonstration's three writes: `set(1, 1)`,
      `set('str2', 'str2')`, `set('str2', 3)`. */
  lemma DemoStore()
    ensures Set(Set(Set(Init(), PyInt(1), PyInt(1)), PyStr("str2"), PyStr("str2")), PyStr("str2"), PyInt(3))
            == Database(map[PyInt(1) := [Entry(1, PyInt(1))],
                            PyStr("str2") := [Entry(2, PyStr("str2")), Entry(3, PyInt(3))]], 3)
  {
    var db0: Database<PyValue, PyValue> := Init();
    var db1 := Set(db0, PyInt(1), PyInt(1));
    var db2 := Set(db1, PyStr("str2"), PyStr("str2"));
    var db3 := Set(db2, PyStr("str2"), PyInt(3));
    var m := map[PyInt(1) := [Entry(1, PyInt(1))],
                 PyStr("str2") := [Entry(2, PyStr("str2")), Entry(3, PyInt(3))]];
    assert db3.store.Keys == m.Keys;
    assert db3.store[PyInt(1)] == m[PyInt(1)];
    assert db3.store[PyStr("str2")] == m[PyStr("str2")];
    assert db3.store == m;
  }

  /** After those writes `get('str2', 3)` is 3; earlier reads see earlier
      values, and a read before a key's first write sees nothing. */
  lemma DemoReads()
    ensures var db := Set(Set(Set(Init(), PyInt(1), PyInt(1)), PyStr("str2"), PyStr("str2")), PyStr("str2"), PyInt(3));
            && Get(db, PyStr("str2"), 3) == Some(PyInt(3))
            && Get(db, PyStr("str2"), 2) == Some(PyStr("str2"))
            && Get(db, PyStr("str2"), 1) == None
            && Get(db, PyInt(1), 0) == None
            && Get(db, PyInt(1), 100) == Some(PyInt(1))
  {
    var db := Set(Set(Set(Init(), PyInt(1), PyInt(1)), PyStr("str2"), PyStr("str2")), PyStr("str2"), PyInt(3));
    DemoStore();
    var h2 := [Entry(2, PyStr("str2")), Entry(3, PyInt(3))];
    HistoryReads(db, PyStr("str2"), h2);
    HistoryReads(db, PyInt(1), [Entry(1, PyInt(1))]);
  }

  /** Reads of a key with a one- or two-entry history stamped 1, or 2 and 3. */
  lemma HistoryReads(db: Database<PyValue, PyValue>, key: PyValue, h: seq<Entry<PyValue>>)
    requires key in db.store && db.store[key] == h
    requires h == [Entry(1, PyInt(1))] || h == [Entry(2, PyStr("str2")), Entry(3, PyInt(3))]
    ensures h == [Entry(1, PyInt(1))] ==> Get(db, key, 0) == None && Get(db, key, 100) == Some(PyInt(1))
    ensures h == [Entry(2, PyStr("str2")), Entry(3, PyInt(3))] ==>
      && Get(db, key, 3) == Some(PyInt(3))
      && Get(db, key, 2) == Some(PyStr("str2"))
      && Get(db, key, 1) == None
  {
    if h == [Entry(1, PyInt(1))] {
      assert Stamps(h) == [1];
    } else {
      assert Stamps(h) == [2, 3];
      assert h[..1] == [Entry(2, PyStr("str2"))];
    }
  }
}
