/**
 * A plain JavaScript object with string keys, as an association list in
 * property order (insertion order for the keys that occur here).
 * Assigning an existing key overwrites its value in place; assigning a new
 * key appends it. Object spread and `Object.fromEntries` assign their
 * entries one after another.
 */
module JsObject {
  import opened Wrappers

  type Obj<V> = seq<(string, V)>

  /** `Object.keys(o)`, in property order. */
  function Keys<V>(o: Obj<V>): (ks: seq<string>)
    ensures |ks| == |o|
    ensures forall i :: 0 <= i < |o| ==> ks[i] == o[i].0
  {
    seq(|o|, i requires 0 <= i < |o| => o[i].0)
  }

  /** `Object.prototype.hasOwnProperty.call(o, k)`. */
  predicate HasKey<V>(o: Obj<V>, k: string) {
    exists i :: 0 <= i < |o| && o[i].0 == k
  }

  /** Every key occurs once, as in a real object. */
  predicate Unique<V>(o: Obj<V>) {
    forall i, j :: 0 <= i < j < |o| ==> o[i].0 != o[j].0
  }

  /** The value under `k` (`None` for a missing property). */
  function Get<V>(o: Obj<V>, k: string): (r: Option<V>)
    ensures r.Some? <==> HasKey(o, k)
  {
    if o == [] then None
    else if o[0].0 == k then Some(o[0].1)
    else
      assert forall i :: 1 <= i < |o| ==> o[i] == o[1..][i - 1];
      Get(o[1..], k)
  }

  /** `o[k] = v`: overwrite in place when the key is present, append otherwise. */
  function Put<V>(o: Obj<V>, k: string, v: V): Obj<V> {
    if o == [] then [(k, v)]
    else if o[0].0 == k then [(k, v)] + o[1..]
    else [o[0]] + Put(o[1..], k, v)
  }

  /** Assigns every entry of `entries` in order: `{...o, ...entries}` and `Object.fromEntries`. */
  function PutAll<V>(o: Obj<V>, entries: Obj<V>): Obj<V>
    decreases |entries|
  {
    if entries == [] then o
    else
      var last := entries[|entries| - 1];
      Put(PutAll(o, entries[..|entries| - 1]), last.0, last.1)
  }

  /** The value the LAST entry named `k` carries. */
  function Last<V>(entries: Obj<V>, k: string): (r: Option<V>)
    ensures r.Some? <==> HasKey(entries, k)
    decreases |entries|
  {
    if entries == [] then None
    else if entries[|entries| - 1].0 == k then Some(entries[|entries| - 1].1)
    else
      var init := entries[..|entries| - 1];
      assert forall i :: 0 <= i < |init| ==> init[i] == entries[i];
      Last(init, k)
  }

  /** Reading after an assignment. */
  lemma {:induction false} GetPut<V>(o: Obj<V>, k: string, v: V, j: string)
    ensures Get(Put(o, k, v), j) == if j == k then Some(v) else Get(o, j)
  {
    if o != [] && o[0].0 != k {
      GetPut(o[1..], k, v, j);
    }
  }

  lemma {:induction false} KeysPut<V>(o: Obj<V>, k: string, v: V)
    ensures HasKey(o, k) ==> Keys(Put(o, k, v)) == Keys(o)
    ensures !HasKey(o, k) ==> Put(o, k, v) == o + [(k, v)]
  {
    if o != [] && o[0].0 != k {
      KeysPut(o[1..], k, v);
      assert HasKey(o, k) ==> HasKey(o[1..], k) by {
        if HasKey(o, k) {
          var i :| 0 <= i < |o| && o[i].0 == k;
          assert o[1..][i - 1].0 == k;
        }
      }
      assert !HasKey(o, k) ==> !HasKey(o[1..], k) by {
        if HasKey(o[1..], k) {
          var i :| 0 <= i < |o[1..]| && o[1..][i].0 == k;
          assert o[i + 1].0 == k;
        }
      }
    }
  }

  lemma {:induction false} HasKeyPut<V>(o: Obj<V>, k: string, v: V, j: string)
    ensures HasKey(Put(o, k, v), j) <==> j == k || HasKey(o, j)
  {
    GetPut(o, k, v, j);
  }

  /** An assignment keeps the keys distinct. */
  lemma {:induction false} UniquePut<V>(o: Obj<V>, k: string, v: V)
    requires Unique(o)
    ensures Unique(Put(o, k, v))
  {
    if o != [] && o[0].0 != k {
      var tail := o[1..];
      assert Unique(tail) by {
        forall i, j | 0 <= i < j < |tail| ensures tail[i].0 != tail[j].0 {
          assert tail[i] == o[i + 1] && tail[j] == o[j + 1];
        }
      }
      UniquePut(tail, k, v);
      var p := Put(tail, k, v);
      forall m | 0 <= m < |tail| ensures tail[m].0 != o[0].0 {
        assert tail[m] == o[m + 1];
      }
      HasKeyPut(tail, k, v, o[0].0);
      assert !HasKey(p, o[0].0);
      var r := [o[0]] + p;
      forall i, j | 0 <= i < j < |r| ensures r[i].0 != r[j].0 {
        if i == 0 { assert r[j] == p[j - 1]; } else { assert r[i] == p[i - 1] && r[j] == p[j - 1]; }
      }
    }
  }

  /** Reading after a run of assignments: the last assignment to the key wins. */
  lemma {:induction false} GetPutAll<V>(o: Obj<V>, entries: Obj<V>, j: string)
    ensures Get(PutAll(o, entries), j) == if HasKey(entries, j) then Last(entries, j) else Get(o, j)
    decreases |entries|
  {
    if entries != [] {
      var init := entries[..|entries| - 1];
      var last := entries[|entries| - 1];
      GetPutAll(o, init, j);
      GetPut(PutAll(o, init), last.0, last.1, j);
      assert forall i :: 0 <= i < |init| ==> init[i] == entries[i];
      if last.0 != j && HasKey(entries, j) {
        var i :| 0 <= i < |entries| && entries[i].0 == j;
        assert init[i].0 == j;
      }
    }
  }

  /** A run of assignments is its first assignment followed by the others. */
  lemma {:induction false} PutAllFirst<V>(o: Obj<V>, entries: Obj<V>)
    requires entries != []
    ensures PutAll(o, entries) == PutAll(Put(o, entries[0].0, entries[0].1), entries[1..])
    decreases |entries|
  {
    if |entries| > 1 {
      var init := entries[..|entries| - 1];
      PutAllFirst(o, init);
      assert init[1..] == entries[1..][..|entries[1..]| - 1];
      assert init[0] == entries[0];
    } else {
      assert entries[1..] == [];
    }
  }

  lemma {:induction false} UniquePutAll<V>(o: Obj<V>, entries: Obj<V>)
    requires Unique(o)
    ensures Unique(PutAll(o, entries))
    decreases |entries|
  {
    if entries != [] {
      var last := entries[|entries| - 1];
      UniquePutAll(o, entries[..|entries| - 1]);
      UniquePut(PutAll(o, entries[..|entries| - 1]), last.0, last.1);
    }
  }

  /** The keys after a run of assignments: the old ones and the assigned ones. */
  lemma {:induction false} HasKeyPutAll<V>(o: Obj<V>, entries: Obj<V>, j: string)
    ensures HasKey(PutAll(o, entries), j) <==> HasKey(entries, j) || HasKey(o, j)
  {
    GetPutAll(o, entries, j);
  }

  /** Copying an object by spreading it into `{}` gives the same object. */
  lemma {:induction false} SpreadCopy<V>(o: Obj<V>)
    requires Unique(o)
    ensures PutAll([], o) == o
    decreases |o|
  {
    if o != [] {
      var init := o[..|o| - 1];
      var last := o[|o| - 1];
      assert Unique(init) by {
        forall i, j | 0 <= i < j < |init| ensures init[i].0 != init[j].0 {
          assert init[i] == o[i] && init[j] == o[j];
        }
      }
      SpreadCopy(init);
      forall i | 0 <= i < |init| ensures init[i].0 != last.0 {
        assert init[i] == o[i];
      }
      KeysPut(init, last.0, last.1);
      assert init + [last] == o;
    }
  }

  /** In an object with distinct keys the first and the last entry for a key are the same one. */
  lemma {:induction false} LastIsGet<V>(o: Obj<V>, k: string)
    requires Unique(o)
    ensures Last(o, k) == Get(o, k)
  {
    SpreadCopy(o);
    GetPutAll([], o, k);
  }

  /** Assigning a key the value it already has changes nothing. */
  lemma {:induction false} PutSame<V>(o: Obj<V>, k: string, v: V)
    requires Get(o, k) == Some(v)
    ensures Put(o, k, v) == o
  {
    if o != [] && o[0].0 != k {
      PutSame(o[1..], k, v);
    }
  }
}
