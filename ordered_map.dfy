/** A JavaScript `Map` with string keys, as the in-memory trackers use it:
    entries kept in insertion order, `set` on a present key replacing the
    value in place, `delete` removing the entry. */
module OrderedMap {
  import opened Common

  /** No key appears twice. */
  predicate KeysDistinct<V>(m: seq<(string, V)>)
  {
    forall i, j :: 0 <= i < j < |m| ==> m[i].0 != m[j].0
  }

  /** Position of `key`, if present. */
  function Find<V>(m: seq<(string, V)>, key: string): (r: Option<nat>)
    ensures r.Some? ==> r.value < |m| && m[r.value].0 == key
    ensures r.None? <==> forall i :: 0 <= i < |m| ==> m[i].0 != key
  {
    if m == [] then None
    else if m[0].0 == key then Some(0)
    else match Find(m[1..], key)
      case None => None
      case Some(k) => Some(k + 1)
  }

  /** `map.get(key)`. */
  function Get<V>(m: seq<(string, V)>, key: string): (r: Option<V>)
    requires KeysDistinct(m)
    ensures r.None? <==> forall i :: 0 <= i < |m| ==> m[i].0 != key
    ensures forall i :: 0 <= i < |m| && m[i].0 == key ==> r == Some(m[i].1)
  {
    match Find(m, key)
    case None => None
    case Some(k) => Some(m[k].1)
  }

  /** Under distinct keys, `get` finds exactly the stored pairs. */
  lemma GetIn<V>(m: seq<(string, V)>, k: string, v: V)
    requires KeysDistinct(m)
    ensures Get(m, k) == Some(v) <==> (k, v) in m
  {
    if (k, v) in m {
      var i :| 0 <= i < |m| && m[i] == (k, v);
    }
  }

  /** Two maps with distinct keys and the same pairs answer every `get` alike. */
  lemma SamePairsSameGet<V>(m: seq<(string, V)>, n: seq<(string, V)>, k: string)
    requires KeysDistinct(m) && KeysDistinct(n)
    requires forall v :: (k, v) in m <==> (k, v) in n
    ensures Get(m, k) == Get(n, k)
  {
    if Get(m, k).Some? {
      GetIn(m, k, Get(m, k).value);
      GetIn(n, k, Get(m, k).value);
    } else if Get(n, k).Some? {
      GetIn(m, k, Get(n, k).value);
      GetIn(n, k, Get(n, k).value);
    }
  }

  /** `map.set(key, value)`. */
  function Set<V>(m: seq<(string, V)>, key: string, value: V): (r: seq<(string, V)>)
    requires KeysDistinct(m)
    ensures KeysDistinct(r)
    ensures Get(r, key) == Some(value)
    ensures forall k :: k != key ==> Get(r, k) == Get(m, k)
    ensures |r| == if Find(m, key).Some? then |m| else |m| + 1
    ensures forall i :: 0 <= i < |m| && m[i].0 != key ==> r[i] == m[i]
  {
    var r := match Find(m, key)
      case None => m + [(key, value)]
      case Some(k) => m[k := (key, value)];
    SetFacts(m, key, value, r);
    r
  }

  lemma SetFacts<V>(m: seq<(string, V)>, key: string, value: V, r: seq<(string, V)>)
    requires KeysDistinct(m)
    requires r == match Find(m, key)
      case None => m + [(key, value)]
      case Some(k) => m[k := (key, value)]
    ensures KeysDistinct(r)
    ensures Get(r, key) == Some(value)
    ensures forall k :: k != key ==> Get(r, k) == Get(m, k)
  {
    assert forall i :: 0 <= i < |m| ==> r[i].0 == m[i].0;
    if Find(m, key).None? {
      assert r[|m|].0 == key;
    }
    assert KeysDistinct(r);
    assert (key, value) in r;
    GetIn(r, key, value);
    forall k | k != key ensures Get(r, k) == Get(m, k) {
      forall v ensures (k, v) in m <==> (k, v) in r {
        if (k, v) in r {
          var i :| 0 <= i < |r| && r[i] == (k, v);
          assert m[i] == r[i];
        }
        if (k, v) in m {
          var i :| 0 <= i < |m| && m[i] == (k, v);
          assert m[i] == r[i];
        }
      }
      SamePairsSameGet(m, r, k);
    }
  }

  function KeyIsNot<V>(key: string): ((string, V)) -> bool
  {
    (e: (string, V)) => e.0 != key
  }

  /** `map.delete(key)`. */
  function Delete<V>(m: seq<(string, V)>, key: string): (r: seq<(string, V)>)
    requires KeysDistinct(m)
    ensures KeysDistinct(r)
    ensures Get(r, key).None?
    ensures forall k :: k != key ==> Get(r, k) == Get(m, k)
    ensures |r| == if Find(m, key).Some? then |m| - 1 else |m|
  {
    var r := Filter(m, KeyIsNot(key));
    FilterKeysDistinct(m, KeyIsNot(key));
    DeleteSize(m, key);
    forall k | k != key ensures Get(r, k) == Get(m, k) {
      SamePairsSameGet(m, r, k);
    }
    r
  }

  /** Filtering keeps keys distinct. */
  lemma {:induction false} FilterKeysDistinct<V>(m: seq<(string, V)>, p: ((string, V)) -> bool)
    ensures KeysDistinct(m) ==> KeysDistinct(Filter(m, p))
  {
    if m != [] && KeysDistinct(m) {
      var tail := m[1..];
      assert KeysDistinct(tail) by {
        forall i, j | 0 <= i < j < |tail| ensures tail[i].0 != tail[j].0 {
          assert tail[i] == m[i + 1] && tail[j] == m[j + 1];
        }
      }
      FilterKeysDistinct(tail, p);
      if p(m[0]) {
        var r := Filter(m, p);
        var rt := Filter(tail, p);
        assert r == [m[0]] + rt;
        forall i, j | 0 <= i < j < |r| ensures r[i].0 != r[j].0 {
          if i == 0 {
            assert r[j] == rt[j - 1];
            var t :| 0 <= t < |tail| && tail[t] == rt[j - 1];
            assert m[t + 1] == tail[t];
          } else {
            assert r[i] == rt[i - 1] && r[j] == rt[j - 1];
          }
        }
      }
    }
  }

  lemma {:induction false} DeleteSize<V>(m: seq<(string, V)>, key: string)
    requires KeysDistinct(m)
    ensures |Filter(m, KeyIsNot(key))| == if Find(m, key).Some? then |m| - 1 else |m|
  {
    if m != [] {
      var tail := m[1..];
      assert KeysDistinct(tail) by {
        forall i, j | 0 <= i < j < |tail| ensures tail[i].0 != tail[j].0 {
          assert tail[i] == m[i + 1] && tail[j] == m[j + 1];
        }
      }
      DeleteSize(tail, key);
      if m[0].0 == key {
        assert Find(tail, key).None? by {
          forall i | 0 <= i < |tail| ensures tail[i].0 != key {
            assert tail[i] == m[i + 1];
          }
        }
        FilterAll(tail, KeyIsNot(key));
      }
    }
  }

  /** The keys in entry order. */
  function Keys<V>(m: seq<(string, V)>): (r: seq<string>)
    ensures |r| == |m|
    ensures forall i :: 0 <= i < |m| ==> r[i] == m[i].0
  {
    seq(|m|, i requires 0 <= i < |m| => m[i].0)
  }

  /** After filtering, a key is still found exactly when its entry passed the filter. */
  lemma FilterGet<V>(m: seq<(string, V)>, p: ((string, V)) -> bool, key: string)
    requires KeysDistinct(m)
    ensures KeysDistinct(Filter(m, p))
    ensures Get(Filter(m, p), key) ==
      if Get(m, key).Some? && p((key, Get(m, key).value)) then Get(m, key) else None
  {
    var f := Filter(m, p);
    FilterKeysDistinct(m, p);
    if Get(f, key).Some? {
      GetIn(f, key, Get(f, key).value);
      GetIn(m, key, Get(f, key).value);
    } else if Get(m, key).Some? {
      GetIn(m, key, Get(m, key).value);
      var i :| 0 <= i < |m| && m[i] == (key, Get(m, key).value);
    }
  }

  /** Deleting the first entry's key from a map with distinct keys drops exactly that entry. */
  lemma DeleteFront<V>(done: seq<(string, V)>, rest: seq<(string, V)>)
    requires rest != [] && KeysDistinct(done + rest)
    ensures Delete(done + rest, rest[0].0) == done + rest[1..]
  {
    var m := done + rest;
    var key := rest[0].0;
    FilterConcat(done, rest, KeyIsNot(key));
    assert forall i :: 0 <= i < |done| ==> done[i].0 != key by {
      forall i | 0 <= i < |done| ensures done[i].0 != key {
        assert m[i] == done[i] && m[|done|] == rest[0];
      }
    }
    FilterAll(done, KeyIsNot(key));
    assert forall i :: 0 <= i < |rest[1..]| ==> rest[1..][i].0 != key by {
      forall i | 0 <= i < |rest[1..]| ensures rest[1..][i].0 != key {
        assert m[|done| + 1 + i] == rest[1..][i] && m[|done|] == rest[0];
      }
    }
    FilterAll(rest[1..], KeyIsNot(key));
    assert rest == [rest[0]] + rest[1..];
  }
}
