/**
 * PHP's ordered associative arrays keyed by strings, as sequences of key/value pairs.
 * Assigning `$a[$k] = $v` replaces the value in place when `$k` is already a key (the
 * pair keeps its position) and appends a new pair otherwise.
 */
module PhpArray {
  import opened Wrappers

  type Entries<V> = seq<(string, V)>

  /** No key appears twice. */
  predicate DistinctKeys<V>(m: Entries<V>) {
    forall i, j :: 0 <= i < j < |m| ==> m[i].0 != m[j].0
  }

  /** The keys, in order (`array_keys`). */
  function Keys<V>(m: Entries<V>): (r: seq<string>)
    ensures |r| == |m| && forall i :: 0 <= i < |m| ==> r[i] == m[i].0
  {
    seq(|m|, i requires 0 <= i < |m| => m[i].0)
  }

  /** The position of key `k`, if present. */
  function Find<V>(m: Entries<V>, k: string): (r: Option<nat>)
    ensures r.Some? ==> r.value < |m| && m[r.value].0 == k
    ensures r.None? <==> forall i :: 0 <= i < |m| ==> m[i].0 != k
  {
    if |m| == 0 then None
    else if m[|m| - 1].0 == k then Some(|m| - 1)
    else Find(m[..|m| - 1], k)
  }

  /** `isset($m[$k])` for a non-null value. */
  predicate HasKey<V>(m: Entries<V>, k: string) {
    Find(m, k).Some?
  }

  /** `$m[$k] ?? null`. */
  function Get<V>(m: Entries<V>, k: string): Option<V> {
    match Find(m, k)
    case Some(i) => Some(m[i].1)
    case None => None
  }

  /** `$m[$k] = $v`. */
  function Put<V>(m: Entries<V>, k: string, v: V): (r: Entries<V>)
    ensures Find(m, k).Some? ==> r == m[Find(m, k).value := (k, v)]
    ensures Find(m, k).None? ==> r == m + [(k, v)]
  {
    match Find(m, k)
    case Some(i) => m[i := (k, v)]
    case None => m + [(k, v)]
  }

  /** The array built by assigning the pairs of `ps` one after another. */
  function FromPairs<V>(ps: seq<(string, V)>): Entries<V> {
    if |ps| == 0 then [] else Put(FromPairs(ps[..|ps| - 1]), ps[|ps| - 1].0, ps[|ps| - 1].1)
  }

  lemma FromPairsSnoc<V>(ps: seq<(string, V)>, p: (string, V))
    ensures FromPairs(ps + [p]) == Put(FromPairs(ps), p.0, p.1)
  {
    assert (ps + [p])[..|ps|] == ps;
  }

  /** In a duplicate-free array the key found is the only one. */
  lemma FindDistinct<V>(m: Entries<V>, i: nat)
    requires DistinctKeys(m) && i < |m|
    ensures Find(m, m[i].0) == Some(i)
  {
    var r := Find(m, m[i].0);
    assert r.Some?;
  }

  /** Assignment keeps keys distinct, reads back the value written and leaves other keys alone. */
  lemma PutFacts<V>(m: Entries<V>, k: string, v: V)
    requires DistinctKeys(m)
    ensures DistinctKeys(Put(m, k, v))
    ensures Get(Put(m, k, v), k) == Some(v)
    ensures forall k' :: k' != k ==> Get(Put(m, k, v), k') == Get(m, k')
  {
    var r := Put(m, k, v);
    var i := match Find(m, k) case Some(j) => j case None => |m|;
    assert r[i] == (k, v);
    assert DistinctKeys(r);
    FindDistinct(r, i);
    forall k' | k' != k
      ensures Get(r, k') == Get(m, k')
    {
      match Find(m, k')
      case Some(j) =>
        assert r[j] == m[j];
        FindDistinct(r, j);
      case None =>
        assert Find(r, k').None?;
    }
  }

  /** `array_combine($keys, $values)`-style build keeps the last value of each key. */
  lemma {:induction false} FromPairsFacts<V>(ps: seq<(string, V)>)
    ensures DistinctKeys(FromPairs(ps))
    ensures forall k :: HasKey(FromPairs(ps), k) <==> exists i :: 0 <= i < |ps| && ps[i].0 == k
  {
    if |ps| > 0 {
      var init := ps[..|ps| - 1];
      var last := ps[|ps| - 1];
      FromPairsFacts(init);
      PutFacts(FromPairs(init), last.0, last.1);
      forall k
        ensures HasKey(FromPairs(ps), k) <==> exists i :: 0 <= i < |ps| && ps[i].0 == k
      {
        if k == last.0 {
          assert Get(FromPairs(ps), k).Some?;
          assert ps[|ps| - 1].0 == k;
        } else {
          assert Get(FromPairs(ps), k) == Get(FromPairs(init), k);
          if exists i :: 0 <= i < |ps| && ps[i].0 == k {
            var i :| 0 <= i < |ps| && ps[i].0 == k;
            assert init[i] == ps[i];
          }
          if HasKey(FromPairs(init), k) {
            var i :| 0 <= i < |init| && init[i].0 == k;
            assert ps[i] == init[i];
          }
        }
      }
    }
  }

  /** Building from pairs whose keys are already distinct gives those pairs back, in order. */
  lemma {:induction false} FromDistinctPairs<V>(ps: seq<(string, V)>)
    requires DistinctKeys(ps)
    ensures FromPairs(ps) == ps
  {
    if |ps| > 0 {
      var init := ps[..|ps| - 1];
      FromDistinctPairs(init);
      assert Find(init, ps[|ps| - 1].0).None?;
    }
  }

  /** Every pair of the built array is one of the pairs assigned. */
  lemma {:induction false} FromPairsMembers<V>(ps: seq<(string, V)>)
    ensures forall i :: 0 <= i < |FromPairs(ps)| ==> FromPairs(ps)[i] in ps
  {
    if |ps| > 0 {
      var init := ps[..|ps| - 1];
      FromPairsMembers(init);
      forall i | 0 <= i < |FromPairs(ps)|
        ensures FromPairs(ps)[i] in ps
      {
        var m := FromPairs(init);
        if i < |m| && FromPairs(ps)[i] == m[i] {
          assert m[i] in init;
        }
      }
    }
  }
  /** Arrays with the same keys in the same order find every key at the same place. */
  lemma {:induction false} FindSameKeys<U, V>(a: Entries<U>, b: Entries<V>, k: string)
    requires Keys(a) == Keys(b)
    ensures Find(a, k) == Find(b, k)
  {
    if |a| > 0 {
      assert Keys(a[..|a| - 1]) == Keys(b[..|b| - 1]);
      FindSameKeys(a[..|a| - 1], b[..|b| - 1], k);
    }
  }

  /** Assigning a key twice keeps only the second value. */
  lemma PutPut<V>(m: Entries<V>, k: string, a: V, b: V)
    ensures Put(Put(m, k, a), k, b) == Put(m, k, b)
  {
    if Find(m, k).Some? {
      var r := Put(m, k, a);
      assert Keys(r) == Keys(m);
      FindSameKeys(r, m, k);
    }
  }

  /** Looking a key up in an array one pair longer. */
  lemma GetSnoc<V>(m: Entries<V>, p: (string, V), k: string)
    ensures Get(m + [p], k) == if p.0 == k then Some(p.1) else Get(m, k)
  {
    assert (m + [p])[..|m|] == m;
  }

  /** `unset($m[$k])`: the array without the pairs keyed `k`, the others in order. */
  function Remove<V>(m: Entries<V>, k: string): Entries<V> {
    if |m| == 0 then []
    else Remove(m[..|m| - 1], k) + if m[|m| - 1].0 == k then [] else [m[|m| - 1]]
  }

  /** Every pair left by a removal is a pair of the array, not keyed `k`. */
  lemma {:induction false} RemoveMembers<V>(m: Entries<V>, k: string)
    ensures forall i :: 0 <= i < |Remove(m, k)| ==> Remove(m, k)[i] in m && Remove(m, k)[i].0 != k
  {
    if |m| > 0 {
      var init := m[..|m| - 1];
      RemoveMembers(init, k);
      assert forall p :: p in init ==> p in m;
    }
  }

  /** Removing an absent key changes nothing. */
  lemma {:induction false} RemoveAbsent<V>(m: Entries<V>, k: string)
    requires !HasKey(m, k)
    ensures Remove(m, k) == m
  {
    if |m| > 0 {
      var init := m[..|m| - 1];
      assert !HasKey(init, k);
      RemoveAbsent(init, k);
    }
  }

  /** Removing a key keeps the keys distinct, leaves it absent and every other key as it was. */
  lemma {:induction false} RemoveFacts<V>(m: Entries<V>, k: string)
    requires DistinctKeys(m)
    ensures DistinctKeys(Remove(m, k))
    ensures !HasKey(Remove(m, k), k)
    ensures forall k' :: k' != k ==> Get(Remove(m, k), k') == Get(m, k')
  {
    RemoveMembers(m, k);
    if |m| > 0 {
      var init := m[..|m| - 1];
      var last := m[|m| - 1];
      var front := Remove(init, k);
      RemoveFacts(init, k);
      RemoveMembers(init, k);
      assert m == init + [last];
      if last.0 != k {
        forall i | 0 <= i < |front|
          ensures front[i].0 != last.0
        {
          assert front[i] in init;
        }
      }
      forall k' | k' != k
        ensures Get(Remove(m, k), k') == Get(m, k')
      {
        if last.0 != k {
          assert Remove(m, k) == front + [last];
          GetSnoc(front, last, k');
        } else {
          assert Remove(m, k) == front;
        }
        GetSnoc(init, last, k');
      }
    }
  }
}
