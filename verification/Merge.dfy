/**
  `merge` of tools/gen_stubs.py: accepted operand tuples are merged into signatures, products of
  sets of operand classes, by uniting tuples that differ in a single position.
 */
module Merge {
  type Class = string
  type Point = seq<Class>
  type Sig = seq<set<Class>>

  /** The product of a signature holds the point. */
  predicate In(p: Point, t: Sig)
  {
    |p| == |t| && forall i | 0 <= i < |t| :: p[i] in t[i]
  }

  predicate InSome(p: Point, sigs: seq<Sig>)
  {
    exists j :: 0 <= j < |sigs| && In(p, sigs[j])
  }

  /** The products are pairwise disjoint and together exactly `points`. */
  ghost predicate Partition(sigs: seq<Sig>, points: set<Point>)
  {
    && (forall p: Point :: InSome(p, sigs) <==> p in points)
    && (forall p: Point, i, j | 0 <= i < j < |sigs| :: !(In(p, sigs[i]) && In(p, sigs[j])))
  }

  predicate Arity(sigs: seq<Sig>, n: nat)
  {
    forall t | t in sigs :: |t| == n
  }

  /** A tuple without its element k. */
  function Key<T>(t: seq<T>, k: nat): (key: seq<T>)
    requires k < |t|
    ensures |key| == |t| - 1
  {
    t[..k] + t[k + 1..]
  }

  function Unkey<T>(key: seq<T>, k: nat, v: T): (t: seq<T>)
    requires k <= |key|
    ensures |t| == |key| + 1 && t[k] == v && Key(t, k) == key
  {
    key[..k] + [v] + key[k..]
  }

  /** No two signatures agree in all positions but k. */
  predicate KeysDistinct(sigs: seq<Sig>, n: nat, k: nat)
    requires Arity(sigs, n) && k < n
  {
    forall i, j | 0 <= i < j < |sigs| :: Key(sigs[i], k) != Key(sigs[j], k)
  }

  /** A point is in a product if it is in position k and in the rest. */
  lemma InByKey(p: Point, t: Sig, k: nat)
    requires k < |t| && |p| == |t|
    ensures In(p, t) <==> p[k] in t[k] && In(Key(p, k), Key(t, k))
  {
    var q, u := Key(p, k), Key(t, k);
    if p[k] in t[k] && In(q, u) {
      forall i | 0 <= i < |t|
        ensures p[i] in t[i]
      {
        if i < k {
          assert q[i] in u[i];
        } else if i > k {
          assert q[i - 1] in u[i - 1];
        }
      }
    }
  }

  /** `merged` has one signature per key of `sigs`, with the union of their classes at k. */
  ghost predicate Grouped(sigs: seq<Sig>, n: nat, k: nat, merged: seq<Sig>)
    requires Arity(sigs, n) && k < n
  {
    && Arity(merged, n)
    && KeysDistinct(merged, n, k)
    && (forall j | 0 <= j < |sigs| :: HasKey(merged, n, k, Key(sigs[j], k)))
    && Unions(sigs, n, k, merged)
  }

  predicate HasKey(sigs: seq<Sig>, n: nat, k: nat, key: Sig)
    requires Arity(sigs, n) && k < n
  {
    exists m :: 0 <= m < |sigs| && Key(sigs[m], k) == key
  }

  ghost predicate Unions(sigs: seq<Sig>, n: nat, k: nat, merged: seq<Sig>)
    requires Arity(sigs, n) && Arity(merged, n) && k < n
  {
    forall m, c | 0 <= m < |merged| :: c in merged[m][k] <==> FromSome(sigs, n, k, Key(merged[m], k), c)
  }

  predicate FromSome(sigs: seq<Sig>, n: nat, k: nat, key: Sig, c: Class)
    requires Arity(sigs, n) && k < n
  {
    exists j :: 0 <= j < |sigs| && Key(sigs[j], k) == key && c in sigs[j][k]
  }

  lemma GroupedPoint(sigs: seq<Sig>, n: nat, k: nat, merged: seq<Sig>, p: Point, m: nat) returns (j: nat)
    requires Arity(sigs, n) && k < n && Grouped(sigs, n, k, merged)
    requires m < |merged| && In(p, merged[m])
    ensures j < |sigs| && In(p, sigs[j]) && Key(sigs[j], k) == Key(merged[m], k)
  {
    InByKey(p, merged[m], k);
    assert FromSome(sigs, n, k, Key(merged[m], k), p[k]);
    j :| 0 <= j < |sigs| && Key(sigs[j], k) == Key(merged[m], k) && p[k] in sigs[j][k];
    InByKey(p, sigs[j], k);
  }

  /** Grouping keeps the partition. */
  lemma GroupedPartition(sigs: seq<Sig>, n: nat, k: nat, merged: seq<Sig>, points: set<Point>)
    requires Arity(sigs, n) && k < n && Grouped(sigs, n, k, merged)
    requires Partition(sigs, points)
    ensures Partition(merged, points)
  {
    forall p: Point
      ensures InSome(p, merged) <==> p in points
    {
      if InSome(p, merged) {
        var m :| 0 <= m < |merged| && In(p, merged[m]);
        var j := GroupedPoint(sigs, n, k, merged, p, m);
        assert InSome(p, sigs);
      } else if p in points {
        assert InSome(p, sigs);
        var j :| 0 <= j < |sigs| && In(p, sigs[j]);
        assert HasKey(merged, n, k, Key(sigs[j], k));
        var m :| 0 <= m < |merged| && Key(merged[m], k) == Key(sigs[j], k);
        InByKey(p, sigs[j], k);
        assert FromSome(sigs, n, k, Key(merged[m], k), p[k]);
        InByKey(p, merged[m], k);
      }
    }
    forall p: Point, a, b | 0 <= a < b < |merged|
      ensures !(In(p, merged[a]) && In(p, merged[b]))
    {
      if In(p, merged[a]) && In(p, merged[b]) {
        var i := GroupedPoint(sigs, n, k, merged, p, a);
        var j := GroupedPoint(sigs, n, k, merged, p, b);
      }
    }
  }

  /** The dictionary `groups` of position k after some signatures, with its keys in insertion order. */
  ghost predicate Collected(done: seq<Sig>, n: nat, k: nat, keys: seq<Sig>, groups: map<Sig, set<Class>>)
    requires Arity(done, n) && k < n
  {
    && (forall x :: x in keys <==> x in groups)
    && (forall x | x in keys :: |x| == n - 1)
    && (forall a, b | 0 <= a < b < |keys| :: keys[a] != keys[b])
    && (forall j | 0 <= j < |done| :: Key(done[j], k) in groups)
    && (forall x, c | x in groups :: c in groups[x] <==> FromSome(done, n, k, x, c))
    && |keys| <= |done|
    && (|keys| == |done| ==> forall a | 0 <= a < |done| :: keys[a] == Key(done[a], k))
  }

  lemma CollectedOld(sigs: seq<Sig>, n: nat, k: nat, i: nat, keys: seq<Sig>, groups: map<Sig, set<Class>>)
    requires Arity(sigs, n) && k < n && i < |sigs| && Collected(sigs[..i], n, k, keys, groups)
    requires Key(sigs[i], k) in groups
    ensures Collected(sigs[..i + 1], n, k, keys, groups[Key(sigs[i], k) := groups[Key(sigs[i], k)] + sigs[i][k]])
  {
    hide FromSome, Key;
    OneMore(sigs, n, k, i);
    var x := Key(sigs[i], k);
    var next := groups[x := groups[x] + sigs[i][k]];
    forall y, c | y in next
      ensures c in next[y] <==> FromSome(sigs[..i + 1], n, k, y, c)
    {
      if y == x {
        assert c in groups[x] <==> FromSome(sigs[..i], n, k, x, c);
      } else {
        assert c in groups[y] <==> FromSome(sigs[..i], n, k, y, c);
      }
    }
  }

  lemma CollectedNew(sigs: seq<Sig>, n: nat, k: nat, i: nat, keys: seq<Sig>, groups: map<Sig, set<Class>>)
    requires Arity(sigs, n) && k < n && i < |sigs| && Collected(sigs[..i], n, k, keys, groups)
    requires Key(sigs[i], k) !in groups
    ensures Collected(sigs[..i + 1], n, k, keys + [Key(sigs[i], k)], groups[Key(sigs[i], k) := sigs[i][k]])
  {
    hide Key;
    var x := Key(sigs[i], k);
    forall c
      ensures !FromSome(sigs[..i], n, k, x, c)
    {
    }
    hide FromSome;
    OneMore(sigs, n, k, i);
    var next := groups[x := sigs[i][k]];
    forall y, c | y in next
      ensures c in next[y] <==> FromSome(sigs[..i + 1], n, k, y, c)
    {
    }
  }

  method Collect(sigs: seq<Sig>, n: nat, k: nat) returns (keys: seq<Sig>, groups: map<Sig, set<Class>>)
    requires Arity(sigs, n) && k < n
    ensures Collected(sigs, n, k, keys, groups)
  {
    keys, groups := [], map[];
    NoneCollected(n, k);
    assert sigs[..0] == [];
    hide Collected;
    for i := 0 to |sigs|
      invariant Collected(sigs[..i], n, k, keys, groups)
    {
      var x := Key(sigs[i], k);
      if x in groups {
        CollectedOld(sigs, n, k, i, keys, groups);
        groups := groups[x := groups[x] + sigs[i][k]];
      } else {
        CollectedNew(sigs, n, k, i, keys, groups);
        keys := keys + [x];
        groups := groups[x := sigs[i][k]];
      }
    }
    assert sigs[..|sigs|] == sigs;
  }

  lemma NoneCollected(n: nat, k: nat)
    requires k < n
    ensures Collected([], n, k, [], map[])
  {
  }

  /** The signatures rebuilt from `groups`, in the order of its keys. */
  method GroupAt(sigs: seq<Sig>, n: nat, k: nat) returns (merged: seq<Sig>)
    requires Arity(sigs, n) && k < n
    ensures Grouped(sigs, n, k, merged)
    ensures |merged| <= |sigs|
    ensures |merged| == |sigs| ==> KeysDistinct(sigs, n, k)
  {
    hide Collected, Key, Grouped, KeysDistinct;
    var keys, groups := Collect(sigs, n, k);
    KeysKnown(sigs, n, k, keys, groups);
    merged := Rebuild(n, k, keys, groups);
    Rebuilt(sigs, n, k, keys, groups, merged);
  }

  method Rebuild(n: nat, k: nat, keys: seq<Sig>, groups: map<Sig, set<Class>>) returns (merged: seq<Sig>)
    requires k < n && forall a | 0 <= a < |keys| :: keys[a] in groups && |keys[a]| == n - 1
    ensures |merged| == |keys|
    ensures forall b | 0 <= b < |keys| ::
              |merged[b]| == n && Key(merged[b], k) == keys[b] && merged[b][k] == groups[keys[b]]
  {
    hide Key;
    merged := [];
    for a := 0 to |keys|
      invariant |merged| == a
      invariant forall b | 0 <= b < a ::
                  |merged[b]| == n && Key(merged[b], k) == keys[b] && merged[b][k] == groups[keys[b]]
    {
      merged := merged + [Unkey(keys[a], k, groups[keys[a]])];
    }
  }

  lemma KeysKnown(sigs: seq<Sig>, n: nat, k: nat, keys: seq<Sig>, groups: map<Sig, set<Class>>)
    requires Arity(sigs, n) && k < n && Collected(sigs, n, k, keys, groups)
    ensures forall a | 0 <= a < |keys| :: keys[a] in groups && |keys[a]| == n - 1
  {
    assert forall a | 0 <= a < |keys| :: keys[a] in keys;
  }

  lemma Rebuilt(sigs: seq<Sig>, n: nat, k: nat, keys: seq<Sig>, groups: map<Sig, set<Class>>, merged: seq<Sig>)
    requires Arity(sigs, n) && k < n && Collected(sigs, n, k, keys, groups) && |merged| == |keys|
    requires forall b | 0 <= b < |keys| ::
               keys[b] in groups && |merged[b]| == n && Key(merged[b], k) == keys[b] && merged[b][k] == groups[keys[b]]
    ensures Grouped(sigs, n, k, merged)
    ensures |merged| <= |sigs|
    ensures |merged| == |sigs| ==> KeysDistinct(sigs, n, k)
  {
    hide FromSome, Key, Collected;
    CollectedFacts(sigs, n, k, keys, groups);
    assert Arity(merged, n);
    assert KeysDistinct(merged, n, k);
    RebuiltKeys(sigs, n, k, keys, merged);
    RebuiltUnions(sigs, n, k, keys, groups, merged);
    hide Unions;
  }

  lemma RebuiltUnions(sigs: seq<Sig>, n: nat, k: nat, keys: seq<Sig>, groups: map<Sig, set<Class>>, merged: seq<Sig>)
    requires Arity(sigs, n) && Arity(merged, n) && k < n && |merged| == |keys|
    requires forall a | 0 <= a < |keys| ::
               keys[a] in groups && Key(merged[a], k) == keys[a] && merged[a][k] == groups[keys[a]]
    requires forall a, c | 0 <= a < |keys| :: c in groups[keys[a]] <==> FromSome(sigs, n, k, keys[a], c)
    ensures Unions(sigs, n, k, merged)
  {
    hide FromSome, Key;
    forall m, c | 0 <= m < |merged|
      ensures c in merged[m][k] <==> FromSome(sigs, n, k, Key(merged[m], k), c)
    {
      assert c in groups[keys[m]] <==> FromSome(sigs, n, k, keys[m], c);
    }
  }

  lemma CollectedFacts(sigs: seq<Sig>, n: nat, k: nat, keys: seq<Sig>, groups: map<Sig, set<Class>>)
    requires Arity(sigs, n) && k < n && Collected(sigs, n, k, keys, groups)
    ensures forall a, b | 0 <= a < b < |keys| :: keys[a] != keys[b]
    ensures forall j | 0 <= j < |sigs| :: Key(sigs[j], k) in keys
    ensures forall a, c | 0 <= a < |keys| && keys[a] in groups :: c in groups[keys[a]] <==>
      FromSome(sigs, n, k, keys[a], c)
    ensures |keys| <= |sigs| && (|keys| == |sigs| ==> KeysDistinct(sigs, n, k))
  {
    hide FromSome, Key;
  }

  lemma RebuiltKeys(sigs: seq<Sig>, n: nat, k: nat, keys: seq<Sig>, merged: seq<Sig>)
    requires Arity(sigs, n) && Arity(merged, n) && k < n && |merged| == |keys|
    requires forall b | 0 <= b < |keys| :: Key(merged[b], k) == keys[b]
    requires forall j | 0 <= j < |sigs| :: Key(sigs[j], k) in keys
    ensures forall j | 0 <= j < |sigs| :: HasKey(merged, n, k, Key(sigs[j], k))
  {
    hide Key;
    forall j | 0 <= j < |sigs|
      ensures HasKey(merged, n, k, Key(sigs[j], k))
    {
      var m :| 0 <= m < |keys| && keys[m] == Key(sigs[j], k);
      assert Key(merged[m], k) == keys[m];
    }
  }

  lemma OneMore(sigs: seq<Sig>, n: nat, k: nat, i: nat)
    requires Arity(sigs, n) && k < n && i < |sigs|
    ensures forall x, c ::
              FromSome(sigs[..i + 1], n, k, x, c)
              <==> FromSome(sigs[..i], n, k, x, c) || (Key(sigs[i], k) == x && c in sigs[i][k])
  {
    forall x, c
      ensures FromSome(sigs[..i + 1], n, k, x, c)
        <==> FromSome(sigs[..i], n, k, x, c) || (Key(sigs[i], k) == x && c in sigs[i][k])
    {
      var front, all := sigs[..i], sigs[..i + 1];
      hide Key;
      if FromSome(front, n, k, x, c) {
        var j :| 0 <= j < |front| && Key(front[j], k) == x && c in front[j][k];
        assert all[j] == front[j];
      }
      if Key(sigs[i], k) == x && c in sigs[i][k] {
        assert all[i] == sigs[i];
      }
    }
  }

  function Singletons(p: Point): (t: Sig)
    ensures |t| == |p| && forall i | 0 <= i < |p| :: t[i] == {p[i]}
  {
    seq(|p|, i requires 0 <= i < |p| => {p[i]})
  }

  lemma InSingletons(p: Point, q: Point)
    ensures In(q, Singletons(p)) <==> q == p
  {
  }

  /** One signature per distinct point. */
  method Start(points: seq<Point>, n: nat) returns (cur: seq<Sig>)
    requires forall p | p in points :: |p| == n
    ensures Arity(cur, n) && Partition(cur, set p | p in points)
  {
    hide Partition, Arity, Singletons;
    cur := [];
    var seen: seq<Point> := [];
    for i := 0 to |points|
      invariant |cur| == |seen| && forall j | 0 <= j < |seen| :: cur[j] == Singletons(seen[j])
      invariant forall p :: p in seen <==> p in points[..i]
      invariant forall a, b | 0 <= a < b < |seen| :: seen[a] != seen[b]
    {
      if points[i] !in seen {
        seen := seen + [points[i]];
        cur := cur + [Singletons(points[i])];
      }
    }
    assert points[..|points|] == points;
    StartArity(points, n, seen, cur);
    StartPartition(seen, cur);
    assert (set p | p in points) == (set p | p in seen);
  }

  lemma StartArity(points: seq<Point>, n: nat, seen: seq<Point>, cur: seq<Sig>)
    requires forall p | p in points :: |p| == n
    requires |cur| == |seen| && forall j | 0 <= j < |seen| :: cur[j] == Singletons(seen[j])
    requires forall p | p in seen :: p in points
    ensures Arity(cur, n)
  {
    forall t | t in cur
      ensures |t| == n
    {
      var j :| 0 <= j < |cur| && cur[j] == t;
      assert seen[j] in seen;
    }
  }

  /** Distinct points make disjoint one-point products. */
  lemma StartPartition(seen: seq<Point>, cur: seq<Sig>)
    requires |cur| == |seen| && forall j | 0 <= j < |seen| :: cur[j] == Singletons(seen[j])
    requires forall a, b | 0 <= a < b < |seen| :: seen[a] != seen[b]
    ensures Partition(cur, set p | p in seen)
  {
    hide In, Singletons;
    forall p: Point, j | 0 <= j < |seen|
      ensures In(p, cur[j]) <==> p == seen[j]
    {
      InSingletons(seen[j], p);
    }
    forall p: Point
      ensures InSome(p, cur) <==> p in seen
    {
      if p in seen {
        var j :| 0 <= j < |seen| && seen[j] == p;
        assert In(p, cur[j]);
      }
      if InSome(p, cur) {
        var j :| 0 <= j < |cur| && In(p, cur[j]);
        assert seen[j] in seen;
      }
    }
  }

  /**
    The signatures partition the points, and no two of them could still be merged: none differ in
    a single position. Each pass that changes anything leaves fewer signatures, so it ends.
   */
  method Merge(points: seq<Point>, n: nat) returns (cur: seq<Sig>)
    requires forall p | p in points :: |p| == n
    ensures Arity(cur, n) && Partition(cur, set p | p in points)
    ensures forall k: nat | k < n :: KeysDistinct(cur, n, k)
  {
    hide Partition, Grouped, KeysDistinct, Arity;
    cur := Start(points, n);
    if |cur| == 0 || |cur[0]| == 0 {
      NothingToMerge(cur, n);
      return;
    }
    var changed := true;
    while changed
      invariant Arity(cur, n) && Partition(cur, set p | p in points)
      invariant !changed ==> forall k: nat | k < n :: KeysDistinct(cur, n, k)
      decreases |cur|, changed
    {
      changed := false;
      ghost var before := |cur|;
      for k := 0 to n
        invariant Arity(cur, n) && Partition(cur, set p | p in points)
        invariant |cur| <= before && (changed ==> |cur| < before)
        invariant !changed ==> forall i: nat | i < k :: KeysDistinct(cur, n, i)
      {
        var merged := GroupAt(cur, n, k);
        GroupedPartition(cur, n, k, merged, set p | p in points);
        GroupedArity(cur, n, k, merged);
        if |merged| < |cur| {
          cur, changed := merged, true;
        }
      }
    }
  }

  lemma GroupedArity(sigs: seq<Sig>, n: nat, k: nat, merged: seq<Sig>)
    requires Arity(sigs, n) && k < n && Grouped(sigs, n, k, merged)
    ensures Arity(merged, n)
  {
  }

  lemma NothingToMerge(cur: seq<Sig>, n: nat)
    requires Arity(cur, n) && (|cur| == 0 || |cur[0]| == 0)
    ensures forall k: nat | k < n :: KeysDistinct(cur, n, k)
  {
    if |cur| > 0 {
      assert cur[0] in cur;
    }
  }
}
