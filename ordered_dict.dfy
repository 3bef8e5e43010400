/** `collections.OrderedDict`, as the GTF attribute loop uses it: a sequence of key/value pairs in
    insertion order, where assigning to a key that is already present replaces its value in place. */
module OrderedDict {
  import opened Results

  /** The keys, in the order the pairs are held. */
  function Keys<K, V>(d: seq<(K, V)>): (ks: seq<K>)
    ensures |ks| == |d|
    ensures forall i | 0 <= i < |d| :: ks[i] == d[i].0
  {
    if |d| == 0 then [] else [d[0].0] + Keys(d[1..])
  }

  /** No key is held twice. */
  predicate Distinct<K(==)>(ks: seq<K>) {
    forall i, j | 0 <= i < j < |ks| :: ks[i] != ks[j]
  }

  /** `d.get(k)`. */
  function Get<K(==), V>(d: seq<(K, V)>, k: K): (r: Option<V>)
    ensures r.None? <==> k !in Keys(d)
  {
    if |d| == 0 then None
    else if d[0].0 == k then Some(d[0].1)
    else Get(d[1..], k)
  }

  /** `d[k] = v`: overwrites the value of `k` where it stands, or appends `(k, v)` when `k` is new. */
  function Insert<K(==), V>(d: seq<(K, V)>, k: K, v: V): (r: seq<(K, V)>)
  {
    if |d| == 0 then [(k, v)]
    else if d[0].0 == k then [(k, v)] + d[1..]
    else [d[0]] + Insert(d[1..], k, v)
  }

  /** A present key keeps its position; a new key goes last. */
  lemma {:induction false} InsertKeys<K, V>(d: seq<(K, V)>, k: K, v: V)
    ensures Keys(Insert(d, k, v)) == if k in Keys(d) then Keys(d) else Keys(d) + [k]
  {
    if |d| > 0 {
      InsertKeys(d[1..], k, v);
      assert Keys(d) == [d[0].0] + Keys(d[1..]);
    }
  }

  /** After `d[k] = v`, `k` maps to `v` and every other key to what it mapped to before. */
  lemma {:induction false} InsertGet<K, V>(d: seq<(K, V)>, k: K, v: V, k': K)
    ensures Get(Insert(d, k, v), k') == if k' == k then Some(v) else Get(d, k')
  {
    if |d| > 0 && d[0].0 != k {
      InsertGet(d[1..], k, v, k');
    }
  }

  /** Assignment keeps the keys distinct. */
  lemma InsertDistinct<K, V>(d: seq<(K, V)>, k: K, v: V)
    requires Distinct(Keys(d))
    ensures Distinct(Keys(Insert(d, k, v)))
  {
    InsertKeys(d, k, v);
  }

  /** Assigning a key the value it already has changes nothing. */
  lemma {:induction false} InsertPresent<K, V>(d: seq<(K, V)>, k: K, v: V)
    requires Get(d, k) == Some(v)
    ensures Insert(d, k, v) == d
  {
    if d[0].0 != k {
      InsertPresent(d[1..], k, v);
    }
  }

  /** Assigning every pair of `ps` in turn. */
  function InsertAll<K(==), V>(d: seq<(K, V)>, ps: seq<(K, V)>): seq<(K, V)>
    decreases |ps|
  {
    if |ps| == 0 then d else InsertAll(Insert(d, ps[0].0, ps[0].1), ps[1..])
  }

  /** The keys of `ks` added, in order, to `seen` when not already there: order of first appearance. */
  function FirstAppearances<K(==)>(seen: seq<K>, ks: seq<K>): seq<K>
    decreases |ks|
  {
    if |ks| == 0 then seen
    else FirstAppearances(if ks[0] in seen then seen else seen + [ks[0]], ks[1..])
  }

  /** The value the last pair for `k` in `ps` carries, if any. */
  function LastValue<K(==), V>(ps: seq<(K, V)>, k: K): Option<V>
  {
    if |ps| == 0 then None
    else if ps[|ps| - 1].0 == k then Some(ps[|ps| - 1].1)
    else LastValue(ps[..|ps| - 1], k)
  }

  /** The keys after a run of assignments are those already present followed by the new ones,
      each where it first appeared. */
  lemma {:induction false} InsertAllKeys<K, V>(d: seq<(K, V)>, ps: seq<(K, V)>)
    ensures Keys(InsertAll(d, ps)) == FirstAppearances(Keys(d), Keys(ps))
    decreases |ps|
  {
    if |ps| > 0 {
      InsertKeys(d, ps[0].0, ps[0].1);
      InsertAllKeys(Insert(d, ps[0].0, ps[0].1), ps[1..]);
      assert Keys(ps)[1..] == Keys(ps[1..]);
    }
  }

  lemma {:induction false} LastValueCons<K, V>(p: (K, V), ps: seq<(K, V)>, k: K)
    ensures LastValue([p] + ps, k) ==
              if LastValue(ps, k).Some? then LastValue(ps, k) else if p.0 == k then Some(p.1) else None
    decreases |ps|
  {
    var all := [p] + ps;
    if |ps| > 0 {
      assert all[|all| - 1] == ps[|ps| - 1];
      assert all[..|all| - 1] == [p] + ps[..|ps| - 1];
      LastValueCons(p, ps[..|ps| - 1], k);
    } else {
      assert all == [p];
    }
  }

  /** After a run of assignments the last value assigned to a key wins; keys not assigned keep theirs. */
  lemma {:induction false} InsertAllGet<K, V>(d: seq<(K, V)>, ps: seq<(K, V)>, k: K)
    ensures Get(InsertAll(d, ps), k) == if LastValue(ps, k).Some? then LastValue(ps, k) else Get(d, k)
    decreases |ps|
  {
    if |ps| > 0 {
      InsertAllGet(Insert(d, ps[0].0, ps[0].1), ps[1..], k);
      InsertGet(d, ps[0].0, ps[0].1, k);
      LastValueCons(ps[0], ps[1..], k);
      assert [ps[0]] + ps[1..] == ps;
    }
  }

  /** A run of assignments starting from distinct keys keeps them distinct. */
  lemma {:induction false} InsertAllDistinct<K, V>(d: seq<(K, V)>, ps: seq<(K, V)>)
    requires Distinct(Keys(d))
    ensures Distinct(Keys(InsertAll(d, ps)))
    decreases |ps|
  {
    if |ps| > 0 {
      InsertDistinct(d, ps[0].0, ps[0].1);
      InsertAllDistinct(Insert(d, ps[0].0, ps[0].1), ps[1..]);
    }
  }
}
