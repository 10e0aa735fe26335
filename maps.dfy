/** Building a map from a sequence of pairs, as Rust's `collect` into a map does. */
module Maps {

  /** The keys of a sequence of pairs. */
  function KeysOf<K, V>(pairs: seq<(K, V)>): set<K>
  {
    set i | 0 <= i < |pairs| :: pairs[i].0
  }

  /**
   * Inserts the pairs one after the other, so a later pair overwrites an
   * earlier one with the same key ("last write wins").
   */
  function Collect<K, V>(pairs: seq<(K, V)>): (m: map<K, V>)
    ensures m.Keys == KeysOf(pairs)
  {
    if pairs == [] then map[]
    else
      var last := pairs[|pairs| - 1];
      assert pairs == pairs[..|pairs| - 1] + [last];
      Collect(pairs[..|pairs| - 1])[last.0 := last.1]
  }

  /** Collecting a concatenation is the right-biased union of the two collections. */
  lemma {:induction false} CollectAppend<K, V>(a: seq<(K, V)>, b: seq<(K, V)>)
    ensures Collect(a + b) == Collect(a) + Collect(b)
  {
    if b != [] {
      var last := b[|b| - 1];
      var init := b[..|b| - 1];
      assert b == init + [last];
      assert a + b == (a + init) + [last];
      CollectSnoc(a + init, last);
      CollectSnoc(init, last);
      CollectAppend(a, init);
      UpdateUnion(Collect(a), Collect(init), last.0, last.1);
    } else {
      assert a + b == a;
    }
  }

  /** Collecting one more pair updates the map with it. */
  lemma CollectSnoc<K, V>(pairs: seq<(K, V)>, p: (K, V))
    ensures Collect(pairs + [p]) == Collect(pairs)[p.0 := p.1]
  {
    assert (pairs + [p])[..|pairs|] == pairs;
  }

  /** Updating a right-biased union is updating its right operand. */
  lemma UpdateUnion<K, V>(m1: map<K, V>, m2: map<K, V>, k: K, v: V)
    ensures (m1 + m2)[k := v] == m1 + m2[k := v]
  {
  }

  /** A pair that no later pair overrides gives the collected value of its key. */
  lemma {:induction false} CollectLastWins<K, V>(pairs: seq<(K, V)>, i: nat)
    requires i < |pairs|
    requires forall j :: i < j < |pairs| ==> pairs[j].0 != pairs[i].0
    ensures pairs[i].0 in Collect(pairs) && Collect(pairs)[pairs[i].0] == pairs[i].1
  {
    if i < |pairs| - 1 {
      CollectLastWins(pairs[..|pairs| - 1], i);
    }
  }

  /** Every collected value comes from the last pair with that key. */
  lemma {:induction false} CollectValueOrigin<K, V>(pairs: seq<(K, V)>, k: K)
    requires k in Collect(pairs)
    ensures exists i :: 0 <= i < |pairs| && pairs[i] == (k, Collect(pairs)[k])
              && forall j :: i < j < |pairs| ==> pairs[j].0 != k
  {
    var last, init := pairs[|pairs| - 1], pairs[..|pairs| - 1];
    assert pairs == init + [last];
    CollectSnoc(init, last);
    if last.0 == k {
      assert pairs[|pairs| - 1] == (k, Collect(pairs)[k]);
    } else {
      CollectValueOrigin(init, k);
      var i :| 0 <= i < |init| && init[i] == (k, Collect(init)[k])
                && forall j :: i < j < |init| ==> init[j].0 != k;
      assert pairs[i] == (k, Collect(pairs)[k]);
    }
  }
}
