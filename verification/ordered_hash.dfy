module Wrappers {
  datatype Option<+T> = None | Some(value: T)
}

/**
 * A Ruby `Hash` with string keys, as the attribute code uses it: it remembers
 * insertion order, assigning to an existing key keeps that key's position, and
 * `delete` removes the entry. Ruby's symbol and string keys collapse to `string`.
 */
module OrderedHash {
  import opened Wrappers

  type Hash<V> = seq<(string, V)>

  predicate HasKey<V>(d: Hash<V>, k: string) {
    exists i :: 0 <= i < |d| && d[i].0 == k
  }

  /** The invariant every Ruby Hash keeps: no key appears twice. */
  predicate DistinctKeys<V>(d: Hash<V>) {
    forall i, j :: 0 <= i < j < |d| ==> d[i].0 != d[j].0
  }

  /** `h.keys`, in insertion order. */
  function Keys<V>(d: Hash<V>): (r: seq<string>)
    ensures |r| == |d| && forall i :: 0 <= i < |d| ==> r[i] == d[i].0
  {
    if d == [] then [] else [d[0].0] + Keys(d[1..])
  }

  /** Position of `k` in `d`, or -1 when `k` is absent. */
  function IndexOf<V>(d: Hash<V>, k: string): (i: int)
    ensures -1 <= i < |d|
    ensures i >= 0 ==> d[i].0 == k
    ensures i < 0 <==> !HasKey(d, k)
    ensures forall j :: 0 <= j < i ==> d[j].0 != k
  {
    if d == [] then -1
    else if d[0].0 == k then 0
    else
      var i := IndexOf(d[1..], k);
      assert HasKey(d[1..], k) ==> HasKey(d, k) by {
        if HasKey(d[1..], k) {
          var j :| 0 <= j < |d[1..]| && d[1..][j].0 == k;
          assert d[j + 1].0 == k;
        }
      }
      if i < 0 then -1 else i + 1
  }

  /** `h[k]`: the value stored under `k`, or `None` (Ruby's `nil`). */
  function Get<V>(d: Hash<V>, k: string): (r: Option<V>)
    ensures r.Some? <==> HasKey(d, k)
  {
    var i := IndexOf(d, k);
    if i < 0 then None else Some(d[i].1)
  }

  /** `h[k] = v`: overwrites in place when `k` is present, appends otherwise. */
  function Put<V>(d: Hash<V>, k: string, v: V): (r: Hash<V>)
    ensures IndexOf(d, k) >= 0 ==> r == d[IndexOf(d, k) := (k, v)]
    ensures IndexOf(d, k) < 0 ==> r == d + [(k, v)]
  {
    if d == [] then [(k, v)]
    else if d[0].0 == k then [(k, v)] + d[1..]
    else [d[0]] + Put(d[1..], k, v)
  }

  /** `h.delete(k)`. */
  function Delete<V>(d: Hash<V>, k: string): (r: Hash<V>)
    requires DistinctKeys(d)
    ensures r == Without(d, {k})
  {
    var i := IndexOf(d, k);
    if i < 0 then
      WithoutNothing(d, {k});
      d
    else
      WithoutOne(d, i);
      d[..i] + d[i + 1..]
  }

  /** Reference definition: the entries of `d` whose key is not in `ks`, in order. */
  function Without<V>(d: Hash<V>, ks: set<string>): Hash<V>
  {
    if d == [] then []
    else if d[0].0 in ks then Without(d[1..], ks)
    else [d[0]] + Without(d[1..], ks)
  }

  lemma {:induction false} WithoutNothing<V>(d: Hash<V>, ks: set<string>)
    requires forall i :: 0 <= i < |d| ==> d[i].0 !in ks
    ensures Without(d, ks) == d
    decreases |d|
  {
    if d != [] {
      WithoutNothing(d[1..], ks);
    }
  }

  lemma {:induction false} WithoutOne<V>(d: Hash<V>, i: nat)
    requires DistinctKeys(d) && i < |d|
    ensures Without(d, {d[i].0}) == d[..i] + d[i + 1..]
    decreases |d|
  {
    if i == 0 {
      WithoutNothing(d[1..], {d[0].0});
    } else {
      WithoutOne(d[1..], i - 1);
      assert d[1..][i - 1] == d[i];
      assert d[..i] == [d[0]] + d[1..][..i - 1];
      assert d[i + 1..] == d[1..][i..];
    }
  }

  /** Removing two key sets one after the other removes their union. */
  lemma {:induction false} WithoutTwice<V>(d: Hash<V>, a: set<string>, b: set<string>)
    ensures Without(Without(d, a), b) == Without(d, a + b)
    decreases |d|
  {
    if d != [] {
      WithoutTwice(d[1..], a, b);
    }
  }

  lemma {:induction false} WithoutKeepsDistinct<V>(d: Hash<V>, ks: set<string>)
    requires DistinctKeys(d)
    ensures DistinctKeys(Without(d, ks))
    ensures forall k :: HasKey(Without(d, ks), k) <==> HasKey(d, k) && k !in ks
    decreases |d|
  {
    if d != [] {
      WithoutKeepsDistinct(d[1..], ks);
      forall k ensures HasKey(d, k) <==> k == d[0].0 || HasKey(d[1..], k) {
        if HasKey(d, k) && k != d[0].0 {
          var j :| 0 <= j < |d| && d[j].0 == k;
          assert d[1..][j - 1].0 == k;
        }
        if HasKey(d[1..], k) {
          var j :| 0 <= j < |d[1..]| && d[1..][j].0 == k;
          assert d[j + 1].0 == k;
        }
      }
      var w := Without(d[1..], ks);
      if d[0].0 !in ks {
        assert !HasKey(w, d[0].0);
        var r := [d[0]] + w;
        forall k ensures HasKey(r, k) <==> k == d[0].0 || HasKey(w, k) {
          if HasKey(r, k) && k != d[0].0 {
            var j :| 0 <= j < |r| && r[j].0 == k;
            assert w[j - 1].0 == k;
          }
          if k == d[0].0 {
            assert r[0].0 == k;
          }
          if HasKey(w, k) {
            var j :| 0 <= j < |w| && w[j].0 == k;
            assert r[j + 1].0 == k;
          }
        }
        forall i, j | 0 <= i < j < |r| ensures r[i].0 != r[j].0 {
          if i == 0 {
            assert r[j] == w[j - 1];
            assert HasKey(w, r[j].0);
          }
        }
      }
    }
  }

  /** `h[k] = v` keeps the keys distinct, and afterwards `k` reads back as `v`
      while every other key reads as before. */
  lemma PutLookup<V>(d: Hash<V>, k: string, v: V)
    requires DistinctKeys(d)
    ensures DistinctKeys(Put(d, k, v))
    ensures forall k' :: Get(Put(d, k, v), k') == if k' == k then Some(v) else Get(d, k')
  {
    var r := Put(d, k, v);
    var i := IndexOf(d, k);
    forall k' ensures Get(r, k') == if k' == k then Some(v) else Get(d, k') {
      var j := IndexOf(d, k');
      var jr := IndexOf(r, k');
      if i >= 0 {
        if k' == k {
          assert r[i].0 == k;
          assert forall t :: 0 <= t < i ==> r[t] == d[t];
          assert jr == i;
        } else if j >= 0 {
          assert r[j] == d[j];
          assert jr == j;
        }
      } else {
        if k' == k {
          assert r[|d|].0 == k;
          assert jr == |d|;
        } else if j >= 0 {
          assert r[j] == d[j];
          assert jr == j;
        }
      }
    }
  }

  /** The set of keys of `d`. */
  function KeySet<V>(d: Hash<V>): (r: set<string>)
    ensures forall k :: k in r <==> HasKey(d, k)
  {
    set i | 0 <= i < |d| :: d[i].0
  }

  lemma HasKeyConcat<V>(a: Hash<V>, b: Hash<V>)
    ensures forall k :: HasKey(a + b, k) <==> HasKey(a, k) || HasKey(b, k)
  {
    var x := a + b;
    forall k ensures HasKey(x, k) <==> HasKey(a, k) || HasKey(b, k) {
      if HasKey(a, k) {
        var j :| 0 <= j < |a| && a[j].0 == k;
        assert x[j].0 == k;
      }
      if HasKey(b, k) {
        var j :| 0 <= j < |b| && b[j].0 == k;
        assert x[|a| + j].0 == k;
      }
      if HasKey(x, k) {
        var j :| 0 <= j < |x| && x[j].0 == k;
        if j >= |a| {
          assert b[j - |a|].0 == k;
        }
      }
    }
  }

  lemma HasKeySnoc<V>(d: Hash<V>, e: (string, V))
    ensures forall k :: HasKey(d + [e], k) <==> HasKey(d, k) || e.0 == k
  {
    HasKeyConcat(d, [e]);
    assert [e][0].0 == e.0;
  }

  /** Removing keys other than `k` does not change what `k` reads as. */
  lemma {:induction false} GetWithout<V>(d: Hash<V>, ks: set<string>, k: string)
    requires k !in ks
    ensures Get(Without(d, ks), k) == Get(d, k)
    decreases |d|
  {
    if d != [] {
      GetWithout(d[1..], ks, k);
      var w := Without(d[1..], ks);
      if d[0].0 !in ks {
        assert ([d[0]] + w)[1..] == w;
      }
    }
  }

  /** `IndexOf` looks only at the keys. */
  lemma {:induction false} IndexOfSameKeys<V, W>(a: Hash<V>, b: Hash<W>, k: string)
    requires |a| == |b| && forall i :: 0 <= i < |a| ==> a[i].0 == b[i].0
    ensures IndexOf(a, k) == IndexOf(b, k)
    decreases |a|
  {
    if a != [] && a[0].0 != k {
      IndexOfSameKeys(a[1..], b[1..], k);
    }
  }

  /** Removing keys and then appending an entry is appending and then removing. */
  lemma {:induction false} WithoutSnoc<V>(d: Hash<V>, e: (string, V), ks: set<string>)
    ensures Without(d + [e], ks) == Without(d, ks) + (if e.0 in ks then [] else [e])
    decreases |d|
  {
    if d == [] {
      assert [e][1..] == [];
    } else {
      assert (d + [e])[1..] == d[1..] + [e];
      WithoutSnoc(d[1..], e, ks);
    }
  }

  /** Assigning a key absent from `d` appends it, and then the key reads as the
      new value while every other key reads as before. */
  lemma PutFresh<V>(d: Hash<V>, k: string, v: V)
    requires !HasKey(d, k)
    ensures Put(d, k, v) == d + [(k, v)]
    ensures forall k' :: Get(d + [(k, v)], k') == if k' == k then Some(v) else Get(d, k')
  {
    var r := d + [(k, v)];
    forall k' ensures Get(r, k') == if k' == k then Some(v) else Get(d, k') {
      var j := IndexOf(d, k');
      var jr := IndexOf(r, k');
      if k' == k {
        assert r[|d|].0 == k;
        assert jr == |d|;
      } else if j >= 0 {
        assert r[j] == d[j];
        assert jr == j;
      } else {
        HasKeySnoc(d, (k, v));
      }
    }
  }

  /** `h[k] = v` adds `k` to the keys and no other. */
  lemma PutKeys<V>(d: Hash<V>, k: string, v: V)
    ensures forall k' :: HasKey(Put(d, k, v), k') <==> k' == k || HasKey(d, k')
  {
    var i := IndexOf(d, k);
    if i < 0 {
      HasKeySnoc(d, (k, v));
    } else {
      var r := Put(d, k, v);
      forall k' ensures HasKey(r, k') <==> k' == k || HasKey(d, k') {
        if HasKey(d, k') {
          var j :| 0 <= j < |d| && d[j].0 == k';
          assert r[j].0 == k';
        }
        if HasKey(r, k') {
          var j :| 0 <= j < |r| && r[j].0 == k';
          assert j != i ==> d[j].0 == k';
        }
      }
    }
  }

  /** `h[k] = v` keeps the key order: an existing key stays where it was, a
      new key goes last. */
  lemma PutOrder<V>(d: Hash<V>, k: string, v: V)
    ensures Keys(Put(d, k, v)) == Keys(d) + (if HasKey(d, k) then [] else [k])
  {
    var r := Put(d, k, v);
    var ks := Keys(d) + (if HasKey(d, k) then [] else [k]);
    assert |Keys(r)| == |ks|;
    forall i | 0 <= i < |ks| ensures Keys(r)[i] == ks[i] {
      if i < |d| {
        assert ks[i] == d[i].0;
      }
    }
  }

  /** A key is among `h.keys` exactly when the Hash holds it. */
  lemma KeysHas<V>(d: Hash<V>, k: string)
    ensures k in Keys(d) <==> HasKey(d, k)
  {
    if k in Keys(d) {
      var i :| 0 <= i < |Keys(d)| && Keys(d)[i] == k;
      assert d[i].0 == k;
    }
    if HasKey(d, k) {
      var i :| 0 <= i < |d| && d[i].0 == k;
      assert Keys(d)[i] == k;
    }
  }

  /** Reference definition: the keys of a list of pairs in order of first
      occurrence; position `i` contributes its key when no earlier pair has it. */
  function FirstKeys<V>(d: Hash<V>): (r: seq<string>)
    ensures forall k :: k in r <==> HasKey(d, k)
    decreases |d|
  {
    if d == [] then []
    else
      var init := d[..|d| - 1];
      HasKeySnoc(init, d[|d| - 1]);
      assert init + [d[|d| - 1]] == d;
      FirstKeys(init) + (if HasKey(init, d[|d| - 1].0) then [] else [d[|d| - 1].0])
  }

  /** Reference definition: the value of the last pair with key `k`. */
  function LastValue<V>(d: Hash<V>, k: string): (r: Option<V>)
    ensures r.Some? <==> HasKey(d, k)
    decreases |d|
  {
    if d == [] then None
    else
      HasKeySnoc(d[..|d| - 1], d[|d| - 1]);
      assert d[..|d| - 1] + [d[|d| - 1]] == d;
      if d[|d| - 1].0 == k then Some(d[|d| - 1].1) else LastValue(d[..|d| - 1], k)
  }

  /** Looking a key up in two Hashes laid end to end finds the first one's
      entry if it has one, and the second one's otherwise. */
  lemma {:induction false} GetConcat<V>(a: Hash<V>, b: Hash<V>, k: string)
    ensures Get(a + b, k) == if HasKey(a, k) then Get(a, k) else Get(b, k)
    decreases |a|
  {
    if a == [] {
      assert a + b == b;
    } else if a[0].0 == k {
      assert (a + b)[0].0 == k;
    } else {
      assert (a + b)[1..] == a[1..] + b;
      GetConcat(a[1..], b, k);
      HasKeyConcat([a[0]], a[1..]);
      assert [a[0]] + a[1..] == a;
      assert !HasKey([a[0]], k);
    }
  }
}
