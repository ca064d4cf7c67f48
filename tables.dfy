/** Reads of an id-keyed table. A `SELECT ... WHERE ...` without `ORDER BY` is modelled as a scan of
    the ids in ascending order, keeping the rows the filter accepts. */
module Tables {

  /** The rows of `m` whose ids lie in [lo, hi), in ascending id order. */
  function Scan<V>(m: map<int, V>, lo: int, hi: int): (r: seq<V>)
    ensures forall k :: lo <= k < hi && k in m ==> m[k] in r
    ensures forall v :: v in r ==> exists k :: lo <= k < hi && k in m && m[k] == v
    decreases hi - lo
  {
    if lo >= hi then [] else (if lo in m then [m[lo]] else []) + Scan(m, lo + 1, hi)
  }

  /** The elements of `s` that satisfy `p`, in their order. */
  function Filter<V>(s: seq<V>, p: V -> bool): (r: seq<V>)
    ensures |r| <= |s|
    ensures forall i :: 0 <= i < |r| ==> r[i] in s && p(r[i])
    ensures forall i :: 0 <= i < |s| && p(s[i]) ==> s[i] in r
  {
    if s == [] then [] else (if p(s[0]) then [s[0]] else []) + Filter(s[1..], p)
  }

  /** The ids in [lo, hi) whose rows satisfy `p`. */
  ghost function KeysWhere<V>(m: map<int, V>, lo: int, hi: int, p: V -> bool): set<int>
  {
    set k | k in m && lo <= k < hi && p(m[k])
  }

  lemma {:induction false} FilterAppend<V>(a: seq<V>, b: seq<V>, p: V -> bool)
    ensures Filter(a + b, p) == Filter(a, p) + Filter(b, p)
  {
    if a != [] {
      assert (a + b)[1..] == a[1..] + b;
      FilterAppend(a[1..], b, p);
    } else {
      assert a + b == b;
    }
  }

  /** Filtering a one-element list keeps it exactly when the element passes. */
  lemma FilterSingle<V>(v: V, p: V -> bool)
    ensures Filter([v], p) == if p(v) then [v] else []
  {
    assert [v][1..] == [];
  }

  /** The first id of the range contributes itself, when its row passes, to the ids that pass. */
  lemma KeysWhereStep<V>(m: map<int, V>, lo: int, hi: int, p: V -> bool)
    requires lo < hi
    ensures |KeysWhere(m, lo, hi, p)| == (if lo in m && p(m[lo]) then 1 else 0) + |KeysWhere(m, lo + 1, hi, p)|
  {
    var here: set<int> := if lo in m && p(m[lo]) then {lo} else {};
    assert KeysWhere(m, lo, hi, p) == here + KeysWhere(m, lo + 1, hi, p);
    assert here !! KeysWhere(m, lo + 1, hi, p);
  }

  /** A filtered scan returns exactly one row per id that passes the filter. */
  lemma {:induction false} FilterScanSize<V>(m: map<int, V>, lo: int, hi: int, p: V -> bool)
    ensures |Filter(Scan(m, lo, hi), p)| == |KeysWhere(m, lo, hi, p)|
    decreases hi - lo
  {
    if lo >= hi {
      assert KeysWhere(m, lo, hi, p) == {};
    } else {
      var head := if lo in m then [m[lo]] else [];
      assert Scan(m, lo, hi) == head + Scan(m, lo + 1, hi);
      FilterAppend(head, Scan(m, lo + 1, hi), p);
      FilterScanSize(m, lo + 1, hi, p);
      KeysWhereStep(m, lo, hi, p);
      if lo in m {
        FilterSingle(m[lo], p);
      }
    }
  }
}
