/** Shared vocabulary: optional values, results, the values a parsed
    provider record can hold, and dictionaries built by insertion. */
module Common {

  datatype Option<+T> = None | Some(value: T)

  datatype Result<+T, +E> = Success(value: T) | Failure(error: E)

  /** A scalar JSON value as it appears in a provider record; `Null` is
      JSON null, which Python reads as None. */
  datatype Value = Null | Bool(b: bool) | Num(n: int) | Str(s: string)

  /** The name of the raw device label: both the input column that holds it
      and the field by which a provider record says which label it answers. */
  const OriginField := "origin_device_model"

  /** A parsed JSON object (a Python dict) keyed by field name. */
  type Record = map<string, Value>

  /** Python's `d.get(key)`: a missing key reads as None. */
  function Get(r: Record, key: string): Value
  {
    if key in r then r[key] else Null
  }

  /** The dictionary obtained by inserting the pairs of `ps` in order, as a
      Python dict comprehension does: a later pair overwrites an earlier one
      with the same key. */
  function LastWins<K, V>(ps: seq<(K, V)>): (m: map<K, V>)
    ensures m.Keys == set i | 0 <= i < |ps| :: ps[i].0
  {
    if ps == [] then map[]
    else
      var m := LastWins(ps[..|ps| - 1]);
      assert forall i :: 0 <= i < |ps| - 1 ==> ps[..|ps| - 1][i] == ps[i];
      m[ps[|ps| - 1].0 := ps[|ps| - 1].1]
  }

  /** The keys of the pairs in `ps`. */
  function Keys<K, V>(ps: seq<(K, V)>): set<K>
  {
    set i | 0 <= i < |ps| :: ps[i].0
  }

  /** No key occurs twice in `ps`. */
  predicate DistinctKeys<K(==), V>(ps: seq<(K, V)>)
  {
    forall i, j :: 0 <= i < j < |ps| ==> ps[i].0 != ps[j].0
  }

  /** Python's `d[k] = v` on the items of a dict: an existing key keeps its
      position and takes the new value, every other pair is unchanged, and
      a new key goes last. */
  function SetItem<K(==), V>(items: seq<(K, V)>, k: K, v: V): (r: seq<(K, V)>)
    requires DistinctKeys(items)
    ensures DistinctKeys(r)
    ensures Keys(r) == Keys(items) + {k}
    ensures k !in Keys(items) ==> r == items + [(k, v)]
    ensures k in Keys(items) ==> |r| == |items|
    ensures k in Keys(items) ==>
              forall m :: 0 <= m < |r| ==> r[m] == (if items[m].0 == k then (k, v) else items[m])
  {
    if k in Keys(items) then
      var r := seq(|items|, m requires 0 <= m < |items| =>
                   if items[m].0 == k then (k, v) else items[m]);
      assert forall m :: 0 <= m < |r| ==> r[m].0 == items[m].0;
      assert Keys(r) == Keys(items) by {
        forall y | y in Keys(items) ensures y in Keys(r) {
          var m :| 0 <= m < |items| && items[m].0 == y;
          assert r[m].0 == y;
        }
      }
      r
    else
      var r := items + [(k, v)];
      assert forall m :: 0 <= m < |items| ==> r[m] == items[m] && items[m].0 in Keys(items);
      assert Keys(r) == Keys(items) + {k} by {
        assert r[|items|].0 == k;
      }
      r
  }

  lemma KeysCons<K, V>(x: (K, V), ps: seq<(K, V)>)
    ensures Keys([x] + ps) == {x.0} + Keys(ps)
  {
    var xs := [x] + ps;
    forall y | y in Keys(xs) ensures y in {x.0} + Keys(ps) {
      var i :| 0 <= i < |xs| && xs[i].0 == y;
      if i > 0 {
        assert ps[i - 1].0 == y;
      }
    }
    forall y | y in Keys(ps) ensures y in Keys(xs) {
      var i :| 0 <= i < |ps| && ps[i].0 == y;
      assert xs[i + 1].0 == y;
    }
    assert xs[0].0 == x.0;
  }

  /** The items of `dict(ps)`, in iteration order: one pair per key, at the
      position where the key first occurs, holding the value of its last
      occurrence. */
  function DictItems<K(==), V>(ps: seq<(K, V)>): (items: seq<(K, V)>)
    ensures DistinctKeys(items)
    ensures Keys(items) == Keys(ps)
  {
    if ps == [] then []
    else
      var front := ps[..|ps| - 1];
      assert Keys(ps) == Keys(front) + {ps[|ps| - 1].0} by {
        assert forall i :: 0 <= i < |front| ==> front[i] == ps[i];
      }
      SetItem(DictItems(front), ps[|ps| - 1].0, ps[|ps| - 1].1)
  }

  /** Pairs with distinct keys are their own dict's items. */
  lemma {:induction false} DictItemsDistinct<K, V>(ps: seq<(K, V)>)
    requires DistinctKeys(ps)
    ensures DictItems(ps) == ps
  {
    if ps != [] {
      var front := ps[..|ps| - 1];
      var last := ps[|ps| - 1];
      assert DistinctKeys(front);
      DictItemsDistinct(front);
      assert last.0 !in Keys(front) by {
        forall i | 0 <= i < |front| ensures front[i].0 != last.0 {
          assert front[i] == ps[i];
        }
      }
      assert front + [(last.0, last.1)] == ps;
    }
  }

  /** Setting a key in a dict's items sets it in the dictionary they hold. */
  lemma LastWinsSetItem<K, V>(items: seq<(K, V)>, k: K, v: V)
    requires DistinctKeys(items)
    ensures LastWins(SetItem(items, k, v)) == LastWins(items)[k := v]
  {
    var r := SetItem(items, k, v);
    var want := LastWins(items)[k := v];
    assert LastWins(r).Keys == want.Keys by {
      assert LastWins(r).Keys == Keys(r);
      assert LastWins(items).Keys == Keys(items);
    }
    forall y | y in LastWins(r) ensures LastWins(r)[y] == want[y] {
      var m :| 0 <= m < |r| && r[m].0 == y;
      LastWinsDistinct(r, m);
      if y == k {
        SetItemAtKey(items, k, v, m);
      } else {
        SetItemOther(items, k, v, m);
        LastWinsDistinct(items, m);
      }
    }
  }

  /** With distinct keys, every pair's value is the one stored for its key. */
  lemma LastWinsDistinct<K, V>(ps: seq<(K, V)>, m: nat)
    requires DistinctKeys(ps) && m < |ps|
    ensures ps[m].0 in LastWins(ps) && LastWins(ps)[ps[m].0] == ps[m].1
  {
    assert forall j :: m < j < |ps| ==> ps[j].0 != ps[m].0;
    LastWinsAt(ps, m);
  }

  /** The pair of `SetItem(items, k, v)` with key `k` holds `v`. */
  lemma SetItemAtKey<K, V>(items: seq<(K, V)>, k: K, v: V, m: nat)
    requires DistinctKeys(items)
    requires m < |SetItem(items, k, v)| && SetItem(items, k, v)[m].0 == k
    ensures SetItem(items, k, v)[m] == (k, v)
  {
  }

  /** A pair of `SetItem(items, k, v)` with a key other than `k` was already
      at that position in `items`. */
  lemma SetItemOther<K, V>(items: seq<(K, V)>, k: K, v: V, m: nat)
    requires DistinctKeys(items)
    requires m < |SetItem(items, k, v)| && SetItem(items, k, v)[m].0 != k
    ensures m < |items| && SetItem(items, k, v)[m] == items[m]
  {
  }

  /** `dict(ps)` holds the same dictionary as inserting the pairs one by one. */
  lemma {:induction false} DictItemsLastWins<K, V>(ps: seq<(K, V)>)
    ensures LastWins(DictItems(ps)) == LastWins(ps)
  {
    if ps != [] {
      var front := ps[..|ps| - 1];
      DictItemsLastWins(front);
      LastWinsSetItem(DictItems(front), ps[|ps| - 1].0, ps[|ps| - 1].1);
    }
  }

  /** The position of the first pair in `ps` whose key is `k`. */
  function FirstAt<K(==), V>(ps: seq<(K, V)>, k: K): (i: nat)
    requires k in Keys(ps)
    ensures i < |ps| && ps[i].0 == k
    ensures forall j :: 0 <= j < i ==> ps[j].0 != k
  {
    assert ps == [ps[0]] + ps[1..];
    KeysCons(ps[0], ps[1..]);
    if ps[0].0 == k then 0 else 1 + FirstAt(ps[1..], k)
  }

  /** Appending a pair moves no key's first occurrence, and a key new to
      `front` first occurs at the appended pair. */
  lemma FirstAtSnoc<K, V>(front: seq<(K, V)>, x: (K, V), y: K)
    requires y in Keys(front) || y == x.0
    ensures y in Keys(front + [x])
    ensures y in Keys(front) ==> FirstAt(front + [x], y) == FirstAt(front, y)
    ensures y !in Keys(front) ==> FirstAt(front + [x], y) == |front|
  {
    var ps := front + [x];
    assert forall i :: 0 <= i < |front| ==> ps[i] == front[i];
    assert ps[|front|] == x;
    var i1 := FirstAt(ps, y);
    if y in Keys(front) {
      var i0 := FirstAt(front, y);
      assert ps[i0].0 == y;
      assert front[i1].0 == y;
    } else {
      assert forall j :: 0 <= j < |front| ==> front[j].0 in Keys(front);
    }
  }

  /** Every key of `items` occurs in `ps`, and the keys of `items` come in
      the order in which they first occur in `ps`. */
  predicate InFirstOrder<K(==), V>(items: seq<(K, V)>, ps: seq<(K, V)>)
  {
    (forall m :: 0 <= m < |items| ==> items[m].0 in Keys(ps)) &&
    forall m, n :: 0 <= m < n < |items| ==> FirstAt(ps, items[m].0) < FirstAt(ps, items[n].0)
  }

  /** The keys of `dict(ps)` come in the order in which they first occur in
      `ps`. */
  lemma {:induction false} DictItemsFirstOrder<K, V>(ps: seq<(K, V)>)
    ensures InFirstOrder(DictItems(ps), ps)
  {
    if ps != [] {
      var front := ps[..|ps| - 1];
      var x := ps[|ps| - 1];
      assert ps == front + [x];
      DictItemsFirstOrder(front);
      SetItemFirstOrder(DictItems(front), front, x);
    }
  }

  /** Setting the key of a pair appended to `front` keeps the items in the
      order of first occurrence. */
  lemma SetItemFirstOrder<K, V>(items: seq<(K, V)>, front: seq<(K, V)>, x: (K, V))
    requires DistinctKeys(items) && Keys(items) == Keys(front)
    requires InFirstOrder(items, front)
    ensures InFirstOrder(SetItem(items, x.0, x.1), front + [x])
  {
    var r := SetItem(items, x.0, x.1);
    var ps := front + [x];
    forall m | 0 <= m < |items|
      ensures r[m].0 == items[m].0 && items[m].0 in Keys(ps)
      ensures FirstAt(ps, items[m].0) == FirstAt(front, items[m].0)
    {
      FirstAtSnoc(front, x, items[m].0);
    }
    if x.0 !in Keys(front) {
      FirstAtSnoc(front, x, x.0);
      assert r[|items|].0 == x.0;
    }
  }

  /** The value stored for a key is the one of the LAST pair carrying it. */
  lemma {:induction false} LastWinsAt<K, V>(ps: seq<(K, V)>, i: nat)
    requires i < |ps|
    requires forall j :: i < j < |ps| ==> ps[j].0 != ps[i].0
    ensures ps[i].0 in LastWins(ps) && LastWins(ps)[ps[i].0] == ps[i].1
  {
    if i < |ps| - 1 {
      var front := ps[..|ps| - 1];
      assert front[i] == ps[i];
      LastWinsAt(front, i);
    }
  }
}
