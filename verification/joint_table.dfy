/** The joint output-secret table Pr(o, h) as a two-level map with get-or-zero entries. */
module JointTable {

  /** output label -> (secret label -> accumulated probability mass) */
  type Table = map<string, map<string, real>>

  /** The mass recorded for (o, h); an absent entry counts as zero. */
  function Mass(t: Table, o: string, h: string): real {
    if o in t && h in t[o] then t[o][h] else 0.0
  }

  /**
   * Adds `p` to entry (o, h), creating the inner map and the entry when absent.
   * Every other entry keeps its mass, and no key is ever removed.
   */
  function AddMass(t: Table, o: string, h: string, p: real): (r: Table)
    ensures forall o', h' :: Mass(r, o', h') == Mass(t, o', h') + (if o' == o && h' == h then p else 0.0)
    ensures r.Keys == t.Keys + {o}
    ensures r[o].Keys == (if o in t then t[o].Keys else {}) + {h}
    ensures forall o' :: o' in t && o' != o ==> r[o'] == t[o']
  {
    var probs := if o in t then t[o] else map[];
    t[o := probs[h := (if h in probs then probs[h] else 0.0) + p]]
  }

  /** The sum of the values of `m`, its keys taken in an arbitrary order. */
  ghost function SumValues<K>(m: map<K, real>): real
    decreases m.Keys
  {
    if m == map[] then 0.0 else var k :| k in m; m[k] + SumValues(m - {k})
  }

  /** The sum does not depend on the order: any key can be taken first. */
  lemma {:induction false} SumValuesRemove<K>(m: map<K, real>, k: K)
    requires k in m
    ensures SumValues(m) == m[k] + SumValues(m - {k})
    decreases m.Keys
  {
    var j :| j in m && SumValues(m) == m[j] + SumValues(m - {j});
    if j != k {
      SumValuesRemove(m - {j}, k);
      SumValuesRemove(m - {k}, j);
      assert m - {j} - {k} == m - {k} - {j};
    }
  }

  /** Setting the value of `k` to `v` changes the sum by `v` minus the old value (zero when absent). */
  lemma SumValuesUpdate<K>(m: map<K, real>, k: K, v: real)
    ensures SumValues(m[k := v]) == SumValues(m) - (if k in m then m[k] else 0.0) + v
  {
    SumValuesRemove(m[k := v], k);
    if k in m {
      SumValuesRemove(m, k);
      assert m[k := v] - {k} == m - {k};
    } else {
      assert m[k := v] - {k} == m;
    }
  }

  /** The mass of each output, summed over its secrets. */
  ghost function OutputTotals(t: Table): map<string, real> {
    map o | o in t :: SumValues(t[o])
  }

  /** The mass of the whole table, summed over every (o, h) entry. */
  ghost function TableTotal(t: Table): real {
    SumValues(OutputTotals(t))
  }

  /** Adding `p` to one entry adds `p` to the table's total. */
  lemma AddMassTotal(t: Table, o: string, h: string, p: real)
    ensures TableTotal(AddMass(t, o, h, p)) == TableTotal(t) + p
  {
    var probs := if o in t then t[o] else map[];
    var r := AddMass(t, o, h, p);
    SumValuesUpdate(probs, h, (if h in probs then probs[h] else 0.0) + p);
    assert OutputTotals(r) == OutputTotals(t)[o := SumValues(probs) + p];
    SumValuesUpdate(OutputTotals(t), o, SumValues(probs) + p);
    if o !in t {
      assert SumValues(probs) == 0.0;
    }
  }

  /** The empty table has total zero. */
  lemma EmptyTotal()
    ensures TableTotal(map[]) == 0.0
  {
    assert OutputTotals(map[]) == map[];
  }
}
