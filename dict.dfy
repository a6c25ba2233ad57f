/**
 * Python dicts as the core uses them: `d[k] = v`, `d.get(k)`, `d.items()` and
 * iteration in insertion order. Overwriting an existing key keeps its position.
 */
module Dicts {
  import opened Wrappers

  /** The items of a dict, in insertion order. */
  type Dict<K, V> = seq<(K, V)>

  function Keys<K, V>(d: Dict<K, V>): seq<K>
  {
    seq(|d|, i requires 0 <= i < |d| => d[i].0)
  }

  ghost predicate UniqueKeys<K, V>(d: Dict<K, V>)
  {
    forall i, j :: 0 <= i < j < |d| ==> d[i].0 != d[j].0
  }

  /** The position of the first item whose key is k. */
  function IndexOf<K(==), V>(d: Dict<K, V>, k: K): (i: nat)
    requires k in Keys(d)
    ensures i < |d| && d[i].0 == k
    ensures forall j :: 0 <= j < i ==> d[j].0 != k
  {
    if d[0].0 == k then 0
    else
      assert Keys(d) == [d[0].0] + Keys(d[1..]);
      1 + IndexOf(d[1..], k)
  }

  /** `d.get(k)`: the value stored under k, if any. */
  function Get<K(==), V>(d: Dict<K, V>, k: K): (r: Option<V>)
    ensures r.Some? <==> k in Keys(d)
  {
    if k in Keys(d) then Some(d[IndexOf(d, k)].1) else None
  }

  /** `d[k] = v`: overwrites the value in place when k is a key, appends the item otherwise. */
  function Put<K(==), V>(d: Dict<K, V>, k: K, v: V): (r: Dict<K, V>)
    ensures k in Keys(d) ==> Keys(r) == Keys(d)
    ensures k !in Keys(d) ==> r == d + [(k, v)]
  {
    if k in Keys(d) then d[IndexOf(d, k) := (k, v)] else d + [(k, v)]
  }

  /** After `d[k] = v`, `d.get(k)` is v. */
  lemma PutGet<K(!new), V>(d: Dict<K, V>, k: K, v: V)
    ensures Get(Put(d, k, v), k) == Some(v)
  {
    var r := Put(d, k, v);
    assert k in Keys(r) by {
      if k !in Keys(d) {
        assert Keys(r)[|d|] == k;
      }
    }
    var i := IndexOf(r, k);
    if k in Keys(d) {
      var m := IndexOf(d, k);
      assert r[m].0 == k;
      assert i == m;
    } else {
      assert forall j :: 0 <= j < |d| ==> Keys(d)[j] == d[j].0 == r[j].0;
      assert i == |d|;
    }
  }

  /** `d[k] = v` changes nothing stored under another key. */
  lemma PutGetOther<K(!new), V>(d: Dict<K, V>, k: K, v: V, k': K)
    requires k' != k
    ensures Get(Put(d, k, v), k') == Get(d, k')
  {
    var r := Put(d, k, v);
    assert Keys(r) == Keys(d) || Keys(r) == Keys(d) + [k];
    if k' in Keys(d) {
      var i := IndexOf(d, k');
      assert r[i] == d[i];
      var j := IndexOf(r, k');
      assert j == i;
    }
  }

  /** `d[k] = v` keeps every key unique. */
  lemma PutUniqueKeys<K(!new), V>(d: Dict<K, V>, k: K, v: V)
    requires UniqueKeys(d)
    ensures UniqueKeys(Put(d, k, v))
  {
    var r := Put(d, k, v);
    if k !in Keys(d) {
      forall i | 0 <= i < |d| ensures r[i].0 != k {
        assert Keys(d)[i] == d[i].0;
      }
    } else {
      assert forall i :: 0 <= i < |d| ==> Keys(d)[i] == d[i].0 == Keys(r)[i] == r[i].0;
    }
  }

  /** The value of the last update `Some((k, v))` in us, if there is one. */
  function LastValue<K(==, !new), V>(us: seq<Option<(K, V)>>, k: K): Option<V>
  {
    if us == [] then None
    else if us[|us| - 1].Some? && us[|us| - 1].value.0 == k then Some(us[|us| - 1].value.1)
    else LastValue(us[..|us| - 1], k)
  }

  /** The dict built by running `d[k] = v` for every `Some((k, v))` of us in order, skipping `None`. */
  function Build<K(==, !new), V>(us: seq<Option<(K, V)>>): Dict<K, V>
  {
    if us == [] then []
    else
      var d := Build(us[..|us| - 1]);
      match us[|us| - 1]
      case None => d
      case Some(kv) => Put(d, kv.0, kv.1)
  }

  /** One more write: `d[k] = v` for a Some, nothing for a None. */
  lemma BuildStep<K(!new), V>(us: seq<Option<(K, V)>>, s: nat)
    requires s < |us|
    ensures Build(us[..s + 1]) == if us[s].Some? then Put(Build(us[..s]), us[s].value.0, us[s].value.1) else Build(us[..s])
  {
    assert us[..s + 1][..s] == us[..s];
  }

  /** Reading k from the built dict gives the last value written under k. */
  lemma {:induction false} BuildGet<K(!new), V>(us: seq<Option<(K, V)>>, k: K)
    ensures Get(Build(us), k) == LastValue(us, k)
  {
    if us != [] {
      var n := |us| - 1;
      BuildGet(us[..n], k);
      if us[n].Some? {
        if us[n].value.0 == k {
          PutGet(Build(us[..n]), k, us[n].value.1);
        } else {
          PutGetOther(Build(us[..n]), us[n].value.0, us[n].value.1, k);
        }
      }
    }
  }

  /** The built dict never holds a key twice. */
  lemma {:induction false} BuildUniqueKeys<K(!new), V>(us: seq<Option<(K, V)>>)
    ensures UniqueKeys(Build(us))
  {
    if us != [] {
      var n := |us| - 1;
      BuildUniqueKeys(us[..n]);
      if us[n].Some? {
        PutUniqueKeys(Build(us[..n]), us[n].value.0, us[n].value.1);
      }
    }
  }

  /** A key has a last value exactly when some update writes it. */
  lemma {:induction false} LastValueSome<K(!new), V>(us: seq<Option<(K, V)>>, k: K)
    ensures LastValue(us, k).Some? <==> exists i :: 0 <= i < |us| && us[i].Some? && us[i].value.0 == k
  {
    if us != [] {
      var n := |us| - 1;
      LastValueSome(us[..n], k);
      if exists i :: 0 <= i < |us| && us[i].Some? && us[i].value.0 == k {
        var i :| 0 <= i < |us| && us[i].Some? && us[i].value.0 == k;
        if i < n {
          assert us[..n][i] == us[i];
        }
      }
      if exists i :: 0 <= i < n && us[..n][i].Some? && us[..n][i].value.0 == k {
        var i :| 0 <= i < n && us[..n][i].Some? && us[..n][i].value.0 == k;
        assert us[i] == us[..n][i];
      }
    }
  }

  /**
   * The last value is the one of an update that writes k and after which no
   * update writes k again.
   */
  lemma {:induction false} LastValueIsLast<K(!new), V>(us: seq<Option<(K, V)>>, k: K)
    requires LastValue(us, k).Some?
    ensures exists i :: 0 <= i < |us| && us[i] == Some((k, LastValue(us, k).value)) &&
                        (forall j :: i < j < |us| ==> !(us[j].Some? && us[j].value.0 == k))
  {
    var n := |us| - 1;
    if us[n].Some? && us[n].value.0 == k {
      assert us[n] == Some((k, LastValue(us, k).value));
    } else {
      LastValueIsLast(us[..n], k);
      var i :| 0 <= i < n && us[..n][i] == Some((k, LastValue(us[..n], k).value)) &&
               (forall j :: i < j < n ==> !(us[..n][j].Some? && us[..n][j].value.0 == k));
      assert us[i] == us[..n][i];
      forall j | i < j < |us| ensures !(us[j].Some? && us[j].value.0 == k) {
        if j < n {
          assert us[j] == us[..n][j];
        }
      }
    }
  }

  /** The updates that write something, in order. */
  function Written<K, V>(us: seq<Option<(K, V)>>): seq<(K, V)>
  {
    if us == [] then []
    else Written(us[..|us| - 1]) + (if us[|us| - 1].Some? then [us[|us| - 1].value] else [])
  }

  /** When no key is written twice, the dict simply lists the writes in order. */
  lemma {:induction false} BuildDistinctWrites<K(!new), V>(us: seq<Option<(K, V)>>)
    requires UniqueKeys(Written(us))
    ensures Build(us) == Written(us)
  {
    if us != [] {
      var n := |us| - 1;
      var w := Written(us[..n]);
      assert UniqueKeys(w) by {
        assert forall i :: 0 <= i < |w| ==> Written(us)[i] == w[i];
      }
      BuildDistinctWrites(us[..n]);
      if us[n].Some? {
        var kv := us[n].value;
        assert Written(us) == w + [kv];
        forall i | 0 <= i < |w| ensures Keys(w)[i] != kv.0 {
          assert Written(us)[i] == w[i];
          assert Written(us)[|w|] == kv;
        }
      }
    }
  }
  /** When every update writes, the writes are the updates' values. */
  lemma {:induction false} WrittenAllSome<K, V>(us: seq<Option<(K, V)>>)
    requires forall i :: 0 <= i < |us| ==> us[i].Some?
    ensures |Written(us)| == |us|
    ensures forall i :: 0 <= i < |us| ==> Written(us)[i] == us[i].value
  {
    if us != [] {
      var n := |us| - 1;
      WrittenAllSome(us[..n]);
    }
  }
}
