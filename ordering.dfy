/**
 * `orderBy: { createdAt: 'desc' }` over a table keyed by integer ids.
 * The database leaves the order of rows with equal timestamps open; the model puts the
 * smaller id first among them, so that the order is a function of the table.
 */
module Ordering {

  /** Row `a` is listed no later than row `b`: newer first, smaller key first on a tie. */
  predicate NoLater(stamps: map<int, int>, a: int, b: int)
    requires a in stamps && b in stamps
  {
    stamps[a] > stamps[b] || (stamps[a] == stamps[b] && a <= b)
  }

  /** Key `k` is the one listed first. */
  predicate IsFirst(stamps: map<int, int>, k: int) {
    k in stamps && forall j :: j in stamps ==> NoLater(stamps, k, j)
  }

  /** Some key of a non-empty table. */
  lemma SomeKey(stamps: map<int, int>) returns (k: int)
    requires stamps != map[]
    ensures k in stamps
  {
    if forall j :: j !in stamps {
      assert false;
    }
    k :| k in stamps;
  }

  /** Every non-empty table has a row to list first. */
  lemma {:induction false} FirstExists(stamps: map<int, int>)
    requires stamps != map[]
    ensures exists k :: IsFirst(stamps, k)
    decreases |stamps|
  {
    var k0 := SomeKey(stamps);
    var rest := stamps - {k0};
    assert rest.Keys == stamps.Keys - {k0};
    if rest == map[] {
      forall j | j in stamps
        ensures NoLater(stamps, k0, j)
      {
        assert j !in rest.Keys;
      }
      assert IsFirst(stamps, k0);
    } else {
      FirstExists(rest);
      var k1 :| IsFirst(rest, k1);
      var first := if NoLater(stamps, k0, k1) then k0 else k1;
      forall j | j in stamps
        ensures NoLater(stamps, first, j)
      {
        if j != k0 {
          assert j in rest && NoLater(rest, k1, j);
        }
      }
      assert IsFirst(stamps, first);
    }
  }

  /**
   * `r` lists the keys of `stamps` (a map from id to `createdAt`) in listing order:
   * each key exactly once, and every key no later than the ones after it.
   */
  predicate InListingOrder(stamps: map<int, int>, r: seq<int>) {
    && |r| == |stamps|
    && (forall i :: 0 <= i < |r| ==> r[i] in stamps)
    && (forall k :: k in stamps ==> k in r)
    && (forall i, j :: 0 <= i < j < |r| ==> r[i] != r[j])
    && (forall i, j :: 0 <= i < j < |r| ==> r[i] in stamps && r[j] in stamps && NoLater(stamps, r[i], r[j]))
  }

  /** Listing the first key, then the rest in order, lists the whole table in order. */
  lemma {:induction false} FirstThenRest(stamps: map<int, int>, k: int, tail: seq<int>)
    requires IsFirst(stamps, k)
    requires InListingOrder(stamps - {k}, tail)
    ensures InListingOrder(stamps, [k] + tail)
  {
    var rest := stamps - {k};
    assert rest.Keys == stamps.Keys - {k};
    FirstThenRestCovers(stamps, k, tail);
    FirstThenRestSorted(stamps, k, tail);
  }

  lemma FirstThenRestCovers(stamps: map<int, int>, k: int, tail: seq<int>)
    requires k in stamps
    requires forall k' :: k' in stamps - {k} ==> k' in tail
    ensures forall k' :: k' in stamps ==> k' in [k] + tail
  {
    var r := [k] + tail;
    forall k' | k' in stamps
      ensures k' in r
    {
      if k' != k {
        assert k' in stamps - {k};
        var i :| 0 <= i < |tail| && tail[i] == k';
        assert r[i + 1] == k';
      }
    }
  }

  lemma FirstThenRestSorted(stamps: map<int, int>, k: int, tail: seq<int>)
    requires IsFirst(stamps, k)
    requires forall i :: 0 <= i < |tail| ==> tail[i] in stamps - {k}
    requires forall i, j :: 0 <= i < j < |tail| ==> tail[i] != tail[j]
    requires forall i, j :: 0 <= i < j < |tail| ==>
      tail[i] in stamps - {k} && tail[j] in stamps - {k} && NoLater(stamps - {k}, tail[i], tail[j])
    ensures forall i :: 0 <= i < |[k] + tail| ==> ([k] + tail)[i] in stamps
    ensures forall i, j :: 0 <= i < j < |[k] + tail| ==> ([k] + tail)[i] != ([k] + tail)[j]
    ensures forall i, j :: 0 <= i < j < |[k] + tail| ==>
      ([k] + tail)[i] in stamps && ([k] + tail)[j] in stamps && NoLater(stamps, ([k] + tail)[i], ([k] + tail)[j])
  {
    var rest := stamps - {k};
    var r := [k] + tail;
    forall i | 0 <= i < |r|
      ensures r[i] in stamps
    {
      if i > 0 { assert r[i] == tail[i - 1] && tail[i - 1] in rest; }
    }
    forall i, j | 0 <= i < j < |r|
      ensures r[i] != r[j]
    {
      assert r[j] == tail[j - 1] && tail[j - 1] in rest;
      if i > 0 { assert r[i] == tail[i - 1]; }
    }
    forall i, j | 0 <= i < j < |r|
      ensures r[i] in stamps && r[j] in stamps && NoLater(stamps, r[i], r[j])
    {
      assert r[j] == tail[j - 1] && tail[j - 1] in rest;
      if i > 0 {
        assert r[i] == tail[i - 1];
        assert NoLater(rest, tail[i - 1], tail[j - 1]);
      }
    }
  }

  /** The keys of `stamps` in listing order. */
  function NewestFirst(stamps: map<int, int>): (r: seq<int>)
    ensures InListingOrder(stamps, r)
    decreases |stamps|
  {
    if stamps == map[] then []
    else
      FirstExists(stamps);
      var k :| IsFirst(stamps, k);
      var rest := stamps - {k};
      assert rest.Keys == stamps.Keys - {k};
      var tail := NewestFirst(rest);
      FirstThenRest(stamps, k, tail);
      [k] + tail
  }

  /** The rows of `m` at the keys `ks`, in the order of `ks`. */
  function RowsAt<T>(m: map<int, T>, ks: seq<int>): (r: seq<T>)
    requires forall i :: 0 <= i < |ks| ==> ks[i] in m
    ensures |r| == |ks|
    ensures forall i :: 0 <= i < |ks| ==> r[i] == m[ks[i]]
  {
    seq(|ks|, i requires 0 <= i < |ks| => m[ks[i]])
  }

  /**
   * Reading a table at its keys in listing order by the timestamps `stamps` reads every row of
   * the table, once each, newest first.
   */
  lemma ListedRows<T>(m: map<int, T>, stamps: map<int, int>, ks: seq<int>)
    requires stamps.Keys == m.Keys
    requires InListingOrder(stamps, ks)
    ensures forall i :: 0 <= i < |ks| ==> ks[i] in m
    ensures |ks| == |m|
    ensures forall k :: k in m ==> m[k] in RowsAt(m, ks)
    ensures forall i, j :: 0 <= i < j < |ks| ==> stamps[ks[i]] >= stamps[ks[j]]
  {
    assert |stamps| == |m| by {
      assert stamps.Keys == m.Keys;
    }
    var r := RowsAt(m, ks);
    forall k | k in m
      ensures m[k] in r
    {
      assert k in stamps && k in ks;
      var i :| 0 <= i < |ks| && ks[i] == k;
      assert r[i] == m[k];
    }
    forall i, j | 0 <= i < j < |ks|
      ensures stamps[ks[i]] >= stamps[ks[j]]
    {
      assert NoLater(stamps, ks[i], ks[j]);
    }
  }
}
