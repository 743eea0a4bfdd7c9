/** Sequence helpers for the two Go idioms the reconciler uses on lists: building
    a `map[name]T` from a slice (a later entry overwrites an earlier one with the
    same name), and ranging over a map, whose order Go leaves unspecified. */
module Collections {

  predicate Distinct<T(==)>(xs: seq<T>) {
    forall i, j :: 0 <= i < j < |xs| ==> xs[i] != xs[j]
  }

  /** `m := map[string]T{}; for _, x := range xs { m[key(x)] = x }`. */
  function KeyBy<T>(xs: seq<T>, key: T -> string): map<string, T>
    decreases |xs|
  {
    if |xs| == 0 then map[]
    else KeyBy(xs[..|xs| - 1], key)[key(xs[|xs| - 1]) := xs[|xs| - 1]]
  }

  /** A name is in the map exactly when some element carries it, and it maps to
      an element carrying it. */
  lemma {:induction false} KeyByDomain<T>(xs: seq<T>, key: T -> string)
    ensures forall k :: k in KeyBy(xs, key) <==> exists i :: 0 <= i < |xs| && key(xs[i]) == k
    ensures forall k :: k in KeyBy(xs, key) ==> KeyBy(xs, key)[k] in xs && key(KeyBy(xs, key)[k]) == k
    decreases |xs|
  {
    if |xs| > 0 {
      var init := xs[..|xs| - 1];
      KeyByDomain(init, key);
      forall k ensures k in KeyBy(xs, key) <==> exists i :: 0 <= i < |xs| && key(xs[i]) == k {
        if exists i :: 0 <= i < |xs| && key(xs[i]) == k {
          var i :| 0 <= i < |xs| && key(xs[i]) == k;
          if i < |xs| - 1 {
            assert key(init[i]) == k;
          }
        }
        if k in KeyBy(init, key) {
          var i :| 0 <= i < |init| && key(init[i]) == k;
          assert key(xs[i]) == k;
        }
      }
      forall k | k in KeyBy(init, key) ensures KeyBy(init, key)[k] in xs {
        assert KeyBy(init, key)[k] in init;
      }
    }
  }

  /** The entry a name maps to is the last one in the slice carrying that name. */
  lemma {:induction false} KeyByIsLast<T>(xs: seq<T>, key: T -> string, i: nat)
    requires i < |xs|
    requires forall j :: i < j < |xs| ==> key(xs[j]) != key(xs[i])
    ensures key(xs[i]) in KeyBy(xs, key) && KeyBy(xs, key)[key(xs[i])] == xs[i]
    decreases |xs|
  {
    if i < |xs| - 1 {
      var init := xs[..|xs| - 1];
      assert init[i] == xs[i];
      forall j | i < j < |init| ensures key(init[j]) != key(init[i]) {
        assert init[j] == xs[j];
      }
      KeyByIsLast(init, key, i);
    }
  }

  lemma {:induction false} KeyByAppend<T>(xs: seq<T>, ys: seq<T>, key: T -> string)
    ensures KeyBy(xs + ys, key) == KeyBy(xs, key) + KeyBy(ys, key)
    decreases |ys|
  {
    if |ys| == 0 {
      assert xs + ys == xs;
    } else {
      var init := ys[..|ys| - 1];
      var last := ys[|ys| - 1];
      assert (xs + ys)[..|xs + ys| - 1] == xs + init;
      assert (xs + ys)[|xs + ys| - 1] == last;
      KeyByAppend(xs, init, key);
      var a, b := KeyBy(xs, key), KeyBy(init, key);
      assert KeyBy(xs + ys, key) == (a + b)[key(last) := last];
      assert KeyBy(ys, key) == b[key(last) := last];
      assert (a + b)[key(last) := last] == a + b[key(last) := last];
    }
  }

  /** The elements of `keys`, in the order `choice` names them (first mention
      wins), that `choice` mentions. */
  function Picked(choice: seq<string>, keys: seq<string>): (r: seq<string>)
    ensures Distinct(r)
    ensures forall k :: k in r <==> k in keys && k in choice
    decreases |choice|
  {
    if |choice| == 0 then []
    else
      var rest := Picked(choice[..|choice| - 1], keys);
      var c := choice[|choice| - 1];
      assert forall k :: k in choice <==> k in choice[..|choice| - 1] || k == c;
      if c in keys && c !in rest then rest + [c] else rest
  }

  /** The elements of `keys` that `choice` does not mention, in their own order. */
  function Unpicked(keys: seq<string>, choice: seq<string>): (r: seq<string>)
    requires Distinct(keys)
    ensures Distinct(r)
    ensures forall k :: k in r <==> k in keys && k !in choice
    decreases |keys|
  {
    if |keys| == 0 then []
    else
      var rest := Unpicked(keys[1..], choice);
      assert forall k :: k in keys <==> k == keys[0] || k in keys[1..];
      assert keys[0] !in keys[1..] by {
        forall j | 0 <= j < |keys[1..]| ensures keys[1..][j] != keys[0] {
          assert keys[1..][j] == keys[j + 1];
        }
      }
      if keys[0] in choice then rest else [keys[0]] + rest
  }

  /** One iteration order of a Go map whose keys are `keys`: the caller's
      `choice` stands for the order the runtime happens to pick. */
  function Enumerate(choice: seq<string>, keys: seq<string>): (r: seq<string>)
    requires Distinct(keys)
    ensures Distinct(r)
    ensures forall k :: k in r <==> k in keys
  {
    var front, back := Picked(choice, keys), Unpicked(keys, choice);
    DistinctDisjointConcat(front, back);
    front + back
  }

  lemma DistinctDisjointConcat<T>(xs: seq<T>, ys: seq<T>)
    requires Distinct(xs) && Distinct(ys)
    requires forall x :: x in xs ==> x !in ys
    ensures Distinct(xs + ys)
  {
    forall i, j | 0 <= i < j < |xs + ys| ensures (xs + ys)[i] != (xs + ys)[j] {
      if j < |xs| {
      } else if i < |xs| {
        assert (xs + ys)[i] in xs && (xs + ys)[j] == ys[j - |xs|];
      } else {
        assert (xs + ys)[i] == ys[i - |xs|] && (xs + ys)[j] == ys[j - |xs|];
      }
    }
  }

  lemma {:induction false} PickedAll(p: seq<string>, keys: seq<string>)
    requires Distinct(p)
    requires forall k :: k in p ==> k in keys
    ensures Picked(p, keys) == p
    decreases |p|
  {
    if |p| > 0 {
      var init := p[..|p| - 1];
      assert Distinct(init);
      PickedAll(init, keys);
      assert p[|p| - 1] !in init;
      assert init + [p[|p| - 1]] == p;
    }
  }

  /** Every iteration order is reachable: choosing a permutation of the keys
      yields exactly that permutation. */
  lemma EnumerateReachesEveryOrder(p: seq<string>, keys: seq<string>)
    requires Distinct(keys) && Distinct(p)
    requires forall k :: k in p <==> k in keys
    ensures Enumerate(p, keys) == p
  {
    PickedAll(p, keys);
    UnpickedNone(keys, p);
  }

  lemma {:induction false} UnpickedNone(keys: seq<string>, choice: seq<string>)
    requires Distinct(keys)
    requires forall k :: k in keys ==> k in choice
    ensures Unpicked(keys, choice) == []
    decreases |keys|
  {
    if |keys| > 0 {
      assert keys[0] in keys;
      UnpickedNone(keys[1..], choice);
    }
  }

  /** The elements whose key is not `n`, in order. */
  function Without<T>(xs: seq<T>, key: T -> string, n: string): seq<T>
    decreases |xs|
  {
    if |xs| == 0 then []
    else
      var rest := Without(xs[..|xs| - 1], key, n);
      var last := xs[|xs| - 1];
      if key(last) == n then rest else rest + [last]
  }

  /** Appending an element files it under its key. */
  lemma KeyBySnoc<T>(xs: seq<T>, x: T, key: T -> string)
    ensures KeyBy(xs + [x], key) == KeyBy(xs, key)[key(x) := x]
  {
    assert (xs + [x])[..|xs|] == xs;
  }

  /** Removing every element with key `n` removes exactly `n` from the map. */
  lemma {:induction false} KeyByWithout<T>(xs: seq<T>, key: T -> string, n: string)
    ensures KeyBy(Without(xs, key, n), key) == KeyBy(xs, key) - {n}
    decreases |xs|
  {
    if |xs| > 0 {
      var init := xs[..|xs| - 1];
      var last := xs[|xs| - 1];
      KeyByWithout(init, key, n);
      var m := KeyBy(init, key);
      var w := Without(init, key, n);
      assert Without(xs, key, n) == if key(last) == n then w else w + [last];
      assert KeyBy(xs, key) == m[key(last) := last];
      if key(last) != n {
        KeyBySnoc(Without(init, key, n), last, key);
        UpdateThenRemove(m, key(last), last, n);
      } else {
        OverwriteThenRemove(m, n, last);
      }
    }
  }

  lemma UpdateThenRemove<V>(m: map<string, V>, k: string, v: V, n: string)
    requires k != n
    ensures (m - {n})[k := v] == m[k := v] - {n}
  {
  }

  lemma OverwriteThenRemove<V>(m: map<string, V>, n: string, v: V)
    ensures m[n := v] - {n} == m - {n}
  {
  }

  lemma {:induction false} WithoutKeeps<T>(xs: seq<T>, key: T -> string, n: string)
    ensures forall y :: y in Without(xs, key, n) ==> y in xs && key(y) != n
    decreases |xs|
  {
    if |xs| > 0 {
      WithoutKeeps(xs[..|xs| - 1], key, n);
    }
  }
}
