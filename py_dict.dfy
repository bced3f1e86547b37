/**
 * A Python `dict` as the sequence of its (key, value) entries in insertion
 * order. Assigning `d[k] = v` overwrites the value of an existing key in
 * place and appends a new key at the end.
 */
module PyDict {

  type Dict<K, V> = seq<(K, V)>

  /** `k in d`. */
  predicate HasKey<K(==), V>(d: Dict<K, V>, k: K) {
    exists i :: 0 <= i < |d| && d[i].0 == k
  }

  /** No key occurs twice: the invariant every Python dict keeps. */
  ghost predicate DistinctKeys<K, V>(d: Dict<K, V>) {
    forall i, j :: 0 <= i < j < |d| ==> d[i].0 != d[j].0
  }

  /** `d[k] = v`: an existing key keeps its position and takes the new value,
      a new key goes at the end. */
  function Insert<K(==), V>(d: Dict<K, V>, k: K, v: V): (r: Dict<K, V>)
    requires DistinctKeys(d)
    ensures HasKey(d, k) ==> |r| == |d| && forall i :: 0 <= i < |d| ==> r[i] == (if d[i].0 == k then (k, v) else d[i])
    ensures !HasKey(d, k) ==> r == d + [(k, v)]
  {
    if d == [] then [(k, v)]
    else if d[0].0 == k then [(k, v)] + d[1..]
    else
      assert HasKey(d, k) ==> HasKey(d[1..], k) by {
        if HasKey(d, k) {
          var i :| 0 <= i < |d| && d[i].0 == k;
          assert d[1..][i - 1] == d[i];
        }
      }
      assert HasKey(d[1..], k) ==> HasKey(d, k) by {
        if HasKey(d[1..], k) {
          var i :| 0 <= i < |d[1..]| && d[1..][i].0 == k;
          assert d[i + 1] == d[1..][i];
        }
      }
      [d[0]] + Insert(d[1..], k, v)
  }

  /** After `d[k] = v` the dict still has distinct keys, holds `k` with value
      `v`, and otherwise holds only entries it held before. */
  lemma InsertKeepsDict<K(!new), V>(d: Dict<K, V>, k: K, v: V)
    requires DistinctKeys(d)
    ensures DistinctKeys(Insert(d, k, v))
    ensures forall e :: e in Insert(d, k, v) ==> e in d || e == (k, v)
    ensures HasKey(Insert(d, k, v), k)
    ensures forall x :: HasKey(d, x) ==> HasKey(Insert(d, k, v), x)
    ensures forall x :: HasKey(Insert(d, k, v), x) ==> HasKey(d, x) || x == k
  {
    var r := Insert(d, k, v);
    if HasKey(d, k) {
      assert forall i :: 0 <= i < |r| ==> r[i].0 == d[i].0;
      var i :| 0 <= i < |d| && d[i].0 == k;
      assert r[i].0 == k;
      forall x | HasKey(d, x) ensures HasKey(r, x) {
        var j :| 0 <= j < |d| && d[j].0 == x;
        assert r[j].0 == x;
      }
      forall x | HasKey(r, x) ensures HasKey(d, x) {
        var j :| 0 <= j < |r| && r[j].0 == x;
        assert d[j].0 == x;
      }
    } else {
      assert r[|d|].0 == k;
      forall x | HasKey(d, x) ensures HasKey(r, x) {
        var j :| 0 <= j < |d| && d[j].0 == x;
        assert r[j].0 == x;
      }
    }
  }

  /** The dict obtained by assigning the pairs of `ps` one after the other, as a
      loop `for k, v in ps: d[k] = v` starting from `{}` does. */
  function FromPairs<K(==, !new), V>(ps: seq<(K, V)>): (d: Dict<K, V>)
    ensures DistinctKeys(d)
    ensures |d| <= |ps|
    ensures forall e :: e in d ==> e in ps
    ensures forall x :: HasKey(d, x) ==> HasKey(ps, x)
    ensures forall x :: HasKey(ps, x) ==> HasKey(d, x)
  {
    if ps == [] then []
    else
      var init := ps[..|ps| - 1];
      var last := ps[|ps| - 1];
      assert ps == init + [last];
      var d := Insert(FromPairs(init), last.0, last.1);
      InsertKeepsDict(FromPairs(init), last.0, last.1);
      assert forall x :: HasKey(ps, x) ==> HasKey(d, x) by {
        forall x | HasKey(ps, x) ensures HasKey(d, x) {
          var i :| 0 <= i < |ps| && ps[i].0 == x;
          if i < |init| {
            assert init[i] == ps[i];
            assert HasKey(init, x);
          }
        }
      }
      assert forall x :: HasKey(d, x) ==> HasKey(ps, x) by {
        forall x | HasKey(d, x) ensures HasKey(ps, x) {
          if x != last.0 {
            assert HasKey(init, x);
            var i :| 0 <= i < |init| && init[i].0 == x;
            assert ps[i] == init[i];
          }
        }
      }
      d
  }

  /** When the keys of `ps` are already distinct no assignment overwrites
      another, so the dict holds exactly the pairs of `ps`, in order. */
  lemma {:induction false} FromDistinctPairs<K(!new), V>(ps: seq<(K, V)>)
    requires DistinctKeys(ps)
    ensures FromPairs(ps) == ps
  {
    if ps != [] {
      var init := ps[..|ps| - 1];
      var last := ps[|ps| - 1];
      FromDistinctPairs(init);
      assert !HasKey(init, last.0) by {
        forall i | 0 <= i < |init| ensures init[i].0 != last.0 {
          assert init[i] == ps[i];
        }
      }
      assert ps == init + [last];
    }
  }

  /** Assigning one more pair extends the dict built from the others. */
  lemma FromPairsSnoc<K(!new), V>(ps: seq<(K, V)>, k: K, v: V)
    ensures FromPairs(ps + [(k, v)]) == Insert(FromPairs(ps), k, v)
  {
    assert (ps + [(k, v)])[..|ps|] == ps;
  }
}
