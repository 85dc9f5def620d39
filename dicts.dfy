/**
 * What a Python loop builds when it assigns `d[k] = v` (or `x = v`) row by
 * row: a dictionary in which the last write to each key wins, and a
 * variable that holds the last value assigned.
 */
module Dicts {
  import opened Wrappers

  /** The dictionary obtained by doing `d[k] = v` for each `Some((k, v))` of writes, in order, from `{}`. */
  function MapOf<K(==), V>(writes: seq<Option<(K, V)>>): map<K, V>
  {
    if writes == [] then map[]
    else
      var m := MapOf(writes[..|writes| - 1]);
      match writes[|writes| - 1]
      case None => m
      case Some(kv) => m[kv.0 := kv.1]
  }

  /** The value of a variable assigned at every Some of xs, starting from None. */
  function LastValue<V>(xs: seq<Option<V>>): Option<V>
  {
    if xs == [] then None
    else if xs[|xs| - 1].Some? then xs[|xs| - 1]
    else LastValue(xs[..|xs| - 1])
  }

  predicate WritesKey<K(==), V>(w: Option<(K, V)>, k: K) {
    w.Some? && w.value.0 == k
  }

  /** Write i is the last write to key k. */
  predicate LastWriteAt<K(==), V>(writes: seq<Option<(K, V)>>, k: K, i: int) {
    0 <= i < |writes| && WritesKey(writes[i], k) &&
    forall j :: i < j < |writes| ==> !WritesKey(writes[j], k)
  }

  /** A key is in the dictionary exactly when some write goes to it. */
  lemma {:induction false} MapOfKeys<K, V>(writes: seq<Option<(K, V)>>, k: K)
    ensures k in MapOf(writes) <==> exists i :: 0 <= i < |writes| && WritesKey(writes[i], k)
  {
    if writes != [] {
      var init := writes[..|writes| - 1];
      MapOfKeys(init, k);
      if k in MapOf(init) {
        var i :| 0 <= i < |init| && WritesKey(init[i], k);
        assert writes[i] == init[i];
      }
      forall i | 0 <= i < |init| && WritesKey(writes[i], k) ensures k in MapOf(init) {
        assert init[i] == writes[i];
      }
    }
  }

  /** The value stored under a key is the one its last write carries. */
  lemma {:induction false} MapOfLastWrite<K, V>(writes: seq<Option<(K, V)>>, k: K, i: int)
    requires LastWriteAt(writes, k, i)
    ensures k in MapOf(writes) && MapOf(writes)[k] == writes[i].value.1
  {
    var n := |writes|;
    var init := writes[..n - 1];
    if i < n - 1 {
      assert !WritesKey(writes[n - 1], k);
      assert LastWriteAt(init, k, i) by {
        forall j | i < j < |init| ensures !WritesKey(init[j], k) {
          assert init[j] == writes[j];
        }
      }
      MapOfLastWrite(init, k, i);
    }
  }

  /** The last value is the one at the last Some, and None only when there is no Some. */
  lemma {:induction false} LastValueIsLast<V>(xs: seq<Option<V>>)
    ensures LastValue(xs).None? <==> forall j :: 0 <= j < |xs| ==> xs[j].None?
    ensures LastValue(xs).Some? ==>
      exists i :: 0 <= i < |xs| && xs[i] == LastValue(xs) && forall j :: i < j < |xs| ==> xs[j].None?
  {
    if xs != [] && xs[|xs| - 1].None? {
      var init := xs[..|xs| - 1];
      LastValueIsLast(init);
      if LastValue(init).Some? {
        var i :| 0 <= i < |init| && init[i] == LastValue(init) && forall j :: i < j < |init| ==> init[j].None?;
        assert xs[i] == init[i];
        assert forall j :: i < j < |xs| ==> xs[j].None? by {
          forall j | i < j < |xs| ensures xs[j].None? {
            if j < |init| { assert xs[j] == init[j]; }
          }
        }
      }
      if LastValue(init).None? {
        forall j | 0 <= j < |xs| ensures xs[j].None? {
          if j < |init| { assert xs[j] == init[j]; }
        }
      }
    }
  }

  /** Every value in the dictionary was written by one of the writes. */
  lemma {:induction false} MapOfValueWritten<K, V>(writes: seq<Option<(K, V)>>, k: K)
    requires k in MapOf(writes)
    ensures exists i :: 0 <= i < |writes| && writes[i] == Some((k, MapOf(writes)[k]))
  {
    var n := |writes|;
    var init := writes[..n - 1];
    if writes[n - 1].Some? && writes[n - 1].value.0 == k {
      assert writes[n - 1] == Some((k, MapOf(writes)[k]));
    } else {
      MapOfValueWritten(init, k);
      var i :| 0 <= i < |init| && init[i] == Some((k, MapOf(init)[k]));
      assert writes[i] == init[i];
    }
  }

  /** One more write `d[k] = v` (or none) after the others. */
  lemma MapOfSnoc<K, V>(writes: seq<Option<(K, V)>>, w: Option<(K, V)>)
    ensures MapOf(writes + [w]) == if w.Some? then MapOf(writes)[w.value.0 := w.value.1] else MapOf(writes)
  {
    assert (writes + [w])[..|writes|] == writes;
  }

  /** One more optional assignment after the others. */
  lemma LastValueSnoc<V>(xs: seq<Option<V>>, x: Option<V>)
    ensures LastValue(xs + [x]) == if x.Some? then x else LastValue(xs)
  {
    assert (xs + [x])[..|xs|] == xs;
  }

  /** `[f(x) for x in xs]`, built from the end. */
  function MapSeq<A, B>(f: A -> B, xs: seq<A>): seq<B> {
    if xs == [] then [] else MapSeq(f, xs[..|xs| - 1]) + [f(xs[|xs| - 1])]
  }

  lemma {:induction false} MapSeqAt<A, B>(f: A -> B, xs: seq<A>)
    ensures |MapSeq(f, xs)| == |xs|
    ensures forall i :: 0 <= i < |xs| ==> MapSeq(f, xs)[i] == f(xs[i])
  {
    if xs != [] {
      var init := xs[..|xs| - 1];
      MapSeqAt(f, init);
      forall i | 0 <= i < |init| ensures MapSeq(f, xs)[i] == f(xs[i]) {
        assert xs[i] == init[i];
      }
    }
  }

  lemma MapSeqSnoc<A, B>(f: A -> B, xs: seq<A>, x: A)
    ensures MapSeq(f, xs + [x]) == MapSeq(f, xs) + [f(x)]
  {
    assert (xs + [x])[..|xs|] == xs;
  }

  /** A key is in the dictionary built from `d[k] = v` for the writes f(x), x in xs, exactly when one of them writes it. */
  lemma MappedKeys<A, K, V>(f: A -> Option<(K, V)>, xs: seq<A>, k: K)
    ensures k in MapOf(MapSeq(f, xs)) <==> exists i :: 0 <= i < |xs| && WritesKey(f(xs[i]), k)
  {
    var w := MapSeq(f, xs);
    MapSeqAt(f, xs);
    MapOfKeys(w, k);
    if k in MapOf(w) {
      var i :| 0 <= i < |w| && WritesKey(w[i], k);
      assert w[i] == f(xs[i]);
    }
  }

  /** The last x of xs whose f writes key k decides its value. */
  lemma MappedLastWrite<A, K, V>(f: A -> Option<(K, V)>, xs: seq<A>, k: K, i: int)
    requires 0 <= i < |xs| && WritesKey(f(xs[i]), k)
    requires forall j :: i < j < |xs| ==> !WritesKey(f(xs[j]), k)
    ensures k in MapOf(MapSeq(f, xs)) && MapOf(MapSeq(f, xs))[k] == f(xs[i]).value.1
  {
    var w := MapSeq(f, xs);
    MapSeqAt(f, xs);
    assert LastWriteAt(w, k, i);
    MapOfLastWrite(w, k, i);
  }

  /** Every entry of the dictionary is the write of some f(x). */
  lemma MappedValueWritten<A, K, V>(f: A -> Option<(K, V)>, xs: seq<A>, k: K)
    requires k in MapOf(MapSeq(f, xs))
    ensures exists i :: 0 <= i < |xs| && f(xs[i]) == Some((k, MapOf(MapSeq(f, xs))[k]))
  {
    var w := MapSeq(f, xs);
    MapSeqAt(f, xs);
    MapOfValueWritten(w, k);
    var i :| 0 <= i < |w| && w[i] == Some((k, MapOf(w)[k]));
    assert f(xs[i]) == w[i];
  }

  /** The variable assigned at every Some of f(x), x in xs, ends at the last such Some, or None when there is none. */
  lemma MappedLastValue<A, V>(f: A -> Option<V>, xs: seq<A>)
    ensures var m := LastValue(MapSeq(f, xs));
      (m.None? <==> forall j :: 0 <= j < |xs| ==> f(xs[j]).None?) &&
      (m.Some? ==> exists i :: 0 <= i < |xs| && f(xs[i]) == m && forall j :: i < j < |xs| ==> f(xs[j]).None?)
  {
    var w := MapSeq(f, xs);
    MapSeqAt(f, xs);
    LastValueIsLast(w);
    if LastValue(w).Some? {
      var i :| 0 <= i < |w| && w[i] == LastValue(w) && forall j :: i < j < |w| ==> w[j].None?;
      assert f(xs[i]) == LastValue(w);
    }
  }
}
