/** Frequency tables: the `defaultdict(int)` counters of the trainer, as immutable maps. */
module Tables {
  import opened Seqs

  /** `table.get(key, 0)`: the count of `k`, zero when it was never counted. */
  function Lookup<K>(m: map<K, nat>, k: K): nat
  {
    if k in m then m[k] else 0
  }

  /** `table[k] += 1` on a `defaultdict(int)`. */
  function Inc<K(!new)>(m: map<K, nat>, k: K): (r: map<K, nat>)
    ensures r.Keys == m.Keys + {k}
    ensures Lookup(r, k) == Lookup(m, k) + 1
    ensures forall j :: j != k ==> Lookup(r, j) == Lookup(m, j)
  {
    m[k := Lookup(m, k) + 1]
  }

  /** Counts every element of `ks`, in order, on top of `m`. */
  function AddAll<K(!new)>(m: map<K, nat>, ks: seq<K>): map<K, nat>
    decreases |ks|
  {
    if ks == [] then m else AddAll(Inc(m, ks[0]), ks[1..])
  }

  /** Every stored count is at least one: `defaultdict` only creates an entry by incrementing it. */
  ghost predicate Positive<K>(m: map<K, nat>)
  {
    forall k :: k in m ==> m[k] >= 1
  }

  /** Some key of a non-empty table, always the same one for the same table. */
  ghost function Pick<K>(m: map<K, nat>): (k: K)
    requires m != map[]
    ensures k in m
  {
    assert m.Keys != {};
    var k :| k in m.Keys; k
  }

  /** Taking one key out of a table shrinks it by one entry. */
  lemma RemoveSize<K>(m: map<K, nat>, k: K)
    requires k in m
    ensures |m - {k}| == |m| - 1
  {
    assert (m - {k}).Keys == m.Keys - {k};
    assert |m.Keys - {k}| == |m.Keys| - 1;
  }

  /** The sum of all counts in a table. */
  ghost function Total<K>(m: map<K, nat>): nat
    decreases |m|
  {
    if m == map[] then 0
    else
      var k := Pick(m);
      RemoveSize(m, k);
      m[k] + Total(m - {k})
  }

  /** `Total` does not depend on which key is taken out first. */
  lemma {:induction false} TotalRemove<K>(m: map<K, nat>, k: K)
    requires k in m
    ensures Total(m) == m[k] + Total(m - {k})
    decreases |m|
  {
    var j := Pick(m);
    if j != k {
      RemoveSize(m, j);
      RemoveSize(m, k);
      assert k in m - {j};
      assert j in m - {k};
      TotalRemove(m - {j}, k);
      TotalRemove(m - {k}, j);
      assert m - {j} - {k} == m - {k} - {j};
    }
  }

  /** One increment adds exactly one to the table's total. */
  lemma {:induction false} TotalInc<K(!new)>(m: map<K, nat>, k: K)
    ensures Total(Inc(m, k)) == Total(m) + 1
  {
    var r := Inc(m, k);
    TotalRemove(r, k);
    assert r - {k} == m - {k};
    if k in m {
      TotalRemove(m, k);
    } else {
      assert m - {k} == m;
    }
  }

  /** Counting a sequence adds each element's occurrences, creates exactly the
      keys it meets, keeps counts positive, and raises the total by its length. */
  lemma {:induction false} AddAllCounts<K(!new)>(m: map<K, nat>, ks: seq<K>)
    ensures forall k :: Lookup(AddAll(m, ks), k) == Lookup(m, k) + Count(ks, k)
    ensures forall k :: k in AddAll(m, ks) <==> k in m || k in ks
    ensures Positive(m) ==> Positive(AddAll(m, ks))
    ensures Total(AddAll(m, ks)) == Total(m) + |ks|
    decreases |ks|
  {
    if ks != [] {
      var m' := Inc(m, ks[0]);
      AddAllCounts(m', ks[1..]);
      TotalInc(m, ks[0]);
      forall k ensures k in ks <==> k == ks[0] || k in ks[1..] {
        if k in ks {
          var i :| 0 <= i < |ks| && ks[i] == k;
          if i > 0 {
            assert ks[1..][i - 1] == k;
          }
        }
      }
    }
  }

  /** Counts the elements of every group in turn: the nested `for` loops of the trainer. */
  function CountAll<K(!new)>(m: map<K, nat>, groups: seq<seq<K>>): map<K, nat>
    decreases |groups|
  {
    if groups == [] then m else CountAll(AddAll(m, groups[0]), groups[1..])
  }

  /** Occurrences of `k` summed over all groups: the reference a table is compared with. */
  function Occurrences<K(==)>(groups: seq<seq<K>>, k: K): nat
  {
    if groups == [] then 0 else Count(groups[0], k) + Occurrences(groups[1..], k)
  }

  /** `k` occurs somewhere exactly when it occurs in some group. */
  lemma {:induction false} OccurrencesPositive<K>(groups: seq<seq<K>>, k: K)
    ensures Occurrences(groups, k) > 0 <==> exists i :: 0 <= i < |groups| && k in groups[i]
  {
    if groups != [] {
      OccurrencesPositive(groups[1..], k);
      if exists i :: 0 <= i < |groups| && k in groups[i] {
        var i :| 0 <= i < |groups| && k in groups[i];
        if i > 0 {
          assert k in groups[1..][i - 1];
        }
      }
      if exists i :: 0 <= i < |groups[1..]| && k in groups[1..][i] {
        var i :| 0 <= i < |groups[1..]| && k in groups[1..][i];
        assert k in groups[i + 1];
      }
    }
  }

  /** The number of elements across all groups. */
  function Size<K>(groups: seq<seq<K>>): nat
  {
    if groups == [] then 0 else |groups[0]| + Size(groups[1..])
  }

  /** Counting all groups gives each key its total number of occurrences, creates
      exactly the keys that occur, and raises the table total by the number of elements. */
  lemma {:induction false} CountAllCounts<K(!new)>(m: map<K, nat>, groups: seq<seq<K>>)
    ensures forall k :: Lookup(CountAll(m, groups), k) == Lookup(m, k) + Occurrences(groups, k)
    ensures forall k :: k in CountAll(m, groups) <==> k in m || Occurrences(groups, k) > 0
    ensures Positive(m) ==> Positive(CountAll(m, groups))
    ensures Total(CountAll(m, groups)) == Total(m) + Size(groups)
    decreases |groups|
  {
    if groups != [] {
      var m' := AddAll(m, groups[0]);
      AddAllCounts(m, groups[0]);
      CountAllCounts(m', groups[1..]);
    }
  }

  /** Counting one more group continues from the table the earlier groups left. */
  lemma {:induction false} CountAllAppend<K(!new)>(m: map<K, nat>, groups: seq<seq<K>>, g: seq<K>)
    ensures CountAll(m, groups + [g]) == AddAll(CountAll(m, groups), g)
    decreases |groups|
  {
    if groups == [] {
      assert groups + [g] == [g];
      assert [g][1..] == [];
    } else {
      assert (groups + [g])[1..] == groups[1..] + [g];
      CountAllAppend(AddAll(m, groups[0]), groups[1..], g);
    }
  }
}
