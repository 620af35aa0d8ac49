/**
  The index `LSHClass`: an append-only dataset and `L` hash tables, one per
  compound hash, each a multimap from bucket key to dataset index.
 */
module Index {
  import opened Wrapping
  import opened Hashing

  /**
    An `unordered_multimap<lshHash, int>`: each key maps to the indices stored
    under it. Within a bucket the indices are kept in insertion order; the
    C++ container leaves that order unspecified.
   */
  type Table = map<LshHash, seq<nat>>

  /** `equal_range(key)`: the entries stored under `key`, none when the key is absent. */
  function Bucket(t: Table, key: LshHash): seq<nat>
  {
    if key in t then t[key] else []
  }

  /** `insert(make_pair(key, idx))`: one more entry under `key`, every other bucket as it was. */
  function Insert(t: Table, key: LshHash, idx: nat): (t': Table)
    ensures Bucket(t', key) == Bucket(t, key) + [idx]
    ensures forall other :: other != key ==> Bucket(t', other) == Bucket(t, other)
  {
    t[key := Bucket(t, key) + [idx]]
  }

  /** The table that inserting the entries `(keys[0], 0)`, `(keys[1], 1)`, ... in turn produces. */
  function InsertAll(keys: seq<LshHash>): Table
    decreases |keys|
  {
    if |keys| == 0 then map[]
    else
      var n := |keys| - 1;
      Insert(InsertAll(keys[..n]), keys[n], n)
  }

  /** The key of each dataset vector under `c`, in dataset order. */
  function KeysOf<T>(c: CompoundHash<T>, data: seq<seq<T>>): seq<LshHash>
    requires c.Valid()
  {
    seq(|data|, i requires 0 <= i < |data| => Evaluate(c, data[i]))
  }

  /** The table that adding `data[0]`, `data[1]`, ... in turn under `c` produces. */
  function BuildTable<T>(c: CompoundHash<T>, data: seq<seq<T>>): Table
    requires c.Valid()
  {
    InsertAll(KeysOf(c, data))
  }

  /** Adding one more vector inserts its key with the next index into the table built so far. */
  lemma BuildTableAppend<T>(c: CompoundHash<T>, data: seq<seq<T>>, v: seq<T>)
    requires c.Valid()
    ensures BuildTable(c, data + [v]) == Insert(BuildTable(c, data), Evaluate(c, v), |data|)
  {
    var keys := KeysOf(c, data + [v]);
    assert keys[..|data|] == KeysOf(c, data);
    assert keys[|data|] == Evaluate(c, v);
    assert InsertAll(keys) == Insert(InsertAll(keys[..|data|]), keys[|data|], |data|);
  }

  /** Every compound hash of the family is well formed. */
  predicate WellFormed<T>(gs: seq<CompoundHash<T>>)
  {
    forall i :: 0 <= i < |gs| ==> gs[i].Valid()
  }

  /** Table `i` holds exactly the entries that adding `data` in order under `gs[i]` inserts. */
  ghost predicate Consistent<T>(gs: seq<CompoundHash<T>>, tables: seq<Table>, data: seq<seq<T>>)
  {
    |gs| == |tables| && WellFormed(gs) &&
    forall i :: 0 <= i < |gs| ==> tables[i] == BuildTable(gs[i], data)
  }

  /**
    Inserting `(gs[i](v), |data|)` into every table `i` keeps the tables
    consistent with `data + [v]`, and each bucket gains that entry exactly
    when it is the bucket of `v`'s key.
   */
  lemma AppendConsistent<T>(gs: seq<CompoundHash<T>>, tables: seq<Table>, data: seq<seq<T>>, v: seq<T>, tables': seq<Table>)
    requires Consistent(gs, tables, data) && |tables'| == |tables|
    requires forall i :: 0 <= i < |gs| ==> tables'[i] == Insert(tables[i], Evaluate(gs[i], v), |data|)
    ensures Consistent(gs, tables', data + [v])
    ensures forall i, key :: 0 <= i < |gs| ==>
      Bucket(tables'[i], key) == Bucket(tables[i], key) + (if key == Evaluate(gs[i], v) then [|data|] else [])
  {
    forall i | 0 <= i < |gs|
      ensures tables'[i] == BuildTable(gs[i], data + [v])
    {
      BuildTableAppend(gs[i], data, v);
    }
    forall i, key | 0 <= i < |gs|
      ensures Bucket(tables'[i], key) == Bucket(tables[i], key) + (if key == Evaluate(gs[i], v) then [|data|] else [])
    {
      var t := Insert(tables[i], Evaluate(gs[i], v), |data|);
      assert tables'[i] == t;
    }
  }

  /**
    The loop of `add`: for `i` from 0 to `L - 1`, table `i` gets the entry
    `(gs[i](v), idx)`; each table gains exactly that entry.
   */
  method InsertEach<T>(tables: seq<Table>, gs: seq<CompoundHash<T>>, v: seq<T>, idx: nat) returns (r: seq<Table>)
    requires |tables| == |gs| && WellFormed(gs)
    ensures |r| == |tables|
    ensures forall i :: 0 <= i < |gs| ==> r[i] == Insert(tables[i], Evaluate(gs[i], v), idx)
  {
    r := tables;
    var i := 0;
    while i < |gs|
      invariant 0 <= i <= |gs|
      invariant |r| == |tables|
      invariant forall j :: 0 <= j < i ==> r[j] == Insert(tables[j], Evaluate(gs[j], v), idx)
      invariant forall j :: i <= j < |gs| ==> r[j] == tables[j]
    {
      r := r[i := Insert(r[i], Evaluate(gs[i], v), idx)];
      i := i + 1;
    }
  }

  /** All compound hashes of the family are copies of the first. */
  ghost predicate Replicated<T>(gs: seq<CompoundHash<T>>)
  {
    forall i :: 0 <= i < |gs| ==> gs[i] == gs[0]
  }

  /**
    In the table built from `keys`, index `idx` occurs once under `keys[idx]`
    and nowhere else; indices beyond `keys` do not occur.
   */
  lemma {:induction false} InsertAllCount(keys: seq<LshHash>, key: LshHash, idx: nat)
    ensures multiset(Bucket(InsertAll(keys), key))[idx] ==
            if idx < |keys| && keys[idx] == key then 1 else 0
  {
    if |keys| > 0 {
      var n: nat := |keys| - 1;
      InsertAllCount(keys[..n], key, idx);
      var before := Bucket(InsertAll(keys[..n]), key);
      CountAppend(before, if keys[n] == key then [n] else [], idx);
      if idx < n {
        assert keys[..n][idx] == keys[idx];
      }
    }
  }

  lemma CountAppend(s: seq<nat>, t: seq<nat>, x: nat)
    ensures multiset(s + t)[x] == multiset(s)[x] + multiset(t)[x]
  {
  }

  /**
    Each dataset index appears in a table exactly once, under the key its
    vector hashes to, and no other index appears at all.
   */
  lemma TableEntryCount<T>(c: CompoundHash<T>, data: seq<seq<T>>, key: LshHash, idx: nat)
    requires c.Valid()
    ensures multiset(Bucket(BuildTable(c, data), key))[idx] ==
            if idx < |data| && Evaluate(c, data[idx]) == key then 1 else 0
  {
    InsertAllCount(KeysOf(c, data), key, idx);
  }

  /** Membership form of TableEntryCount. */
  lemma TableMembership<T>(c: CompoundHash<T>, data: seq<seq<T>>, key: LshHash, idx: nat)
    requires c.Valid()
    ensures idx in Bucket(BuildTable(c, data), key) <==> idx < |data| && Evaluate(c, data[idx]) == key
  {
    TableEntryCount(c, data, key, idx);
  }

  /** The buckets a query probes, in table order: bucket `g[i](q)` of table `i`. */
  function Buckets<T>(tables: seq<Table>, gs: seq<CompoundHash<T>>, q: seq<T>): (bs: seq<seq<nat>>)
    requires |gs| == |tables| && WellFormed(gs)
    ensures |bs| == |tables|
  {
    seq(|tables|, i requires 0 <= i < |tables| => Bucket(tables[i], Evaluate(gs[i], q)))
  }

  /** The entries of the buckets one after the other. */
  function Flatten(bs: seq<seq<nat>>): seq<nat>
  {
    if |bs| == 0 then [] else bs[0] + Flatten(bs[1..])
  }

  function Elems(s: seq<nat>): set<nat>
  {
    set x | x in s
  }

  function Min(a: int, b: int): int
  {
    if a <= b then a else b
  }

  /** The union over `i < L` of bucket `g[i](q)` of table `i`. */
  function BucketUnion<T>(tables: seq<Table>, gs: seq<CompoundHash<T>>, q: seq<T>): set<nat>
    requires |gs| == |tables| && WellFormed(gs)
  {
    set i, idx | 0 <= i < |tables| && idx in Bucket(tables[i], Evaluate(gs[i], q)) :: idx
  }

  /**
    The collection loop of `query`: add the entries of `s` to `acc` one by
    one and stop as soon as `acc` holds `bound` elements.
   */
  function Collect(s: seq<nat>, acc: set<nat>, bound: nat): (r: set<nat>)
    ensures acc <= r <= acc + Elems(s)
  {
    if |s| == 0 then acc
    else
      var acc' := acc + {s[0]};
      assert acc' + Elems(s[1..]) == acc + Elems(s) by {
        assert s == [s[0]] + s[1..];
      }
      if |acc'| >= bound then acc' else Collect(s[1..], acc', bound)
  }

  /** What `query(q)` returns, as indices: the collection over all probed buckets with bound `2 * L`. */
  function QueryResult<T>(tables: seq<Table>, gs: seq<CompoundHash<T>>, q: seq<T>): set<nat>
    requires |gs| == |tables| && WellFormed(gs)
  {
    Collect(Flatten(Buckets(tables, gs, q)), {}, 2 * |gs|)
  }

  lemma SubsetCard(a: set<nat>, b: set<nat>)
    requires a <= b
    ensures |a| <= |b|
    ensures |a| == |b| ==> a == b
  {
    assert b == a + (b - a);
    assert |b| == |a| + |b - a|;
  }

  /**
    The collection keeps what it started with, adds only entries of `s`, and
    ends with `min(|everything|, bound)` elements; below the bound it is
    everything.
   */
  lemma {:induction false} CollectSpec(s: seq<nat>, acc: set<nat>, bound: nat)
    requires |acc| < bound || (|s| == 0 && |acc| <= bound)
    ensures acc <= Collect(s, acc, bound) <= acc + Elems(s)
    ensures |Collect(s, acc, bound)| == Min(|acc + Elems(s)|, bound)
    ensures |acc + Elems(s)| <= bound ==> Collect(s, acc, bound) == acc + Elems(s)
  {
    var all := acc + Elems(s);
    var r := Collect(s, acc, bound);
    if |s| > 0 {
      var acc' := acc + {s[0]};
      ElemsCons(acc, s);
      if |acc'| >= bound {
        AddOneCard(acc, s[0]);
        SubsetCard(acc', all);
      } else {
        CollectSpec(s[1..], acc', bound);
      }
    }
    SubsetCard(r, all);
  }

  lemma AddOneCard(a: set<nat>, x: nat)
    ensures |a + {x}| <= |a| + 1
  {
  }

  /** The elements of `s` are its head and the elements of its tail. */
  lemma ElemsCons(acc: set<nat>, s: seq<nat>)
    requires |s| > 0
    ensures acc + {s[0]} + Elems(s[1..]) == acc + Elems(s)
  {
    assert s == [s[0]] + s[1..];
  }

  /** One step of the collection loop, at position `j` of a bucket followed by `rest`. */
  lemma CollectUnfold(range: seq<nat>, rest: seq<nat>, j: nat, acc: set<nat>, bound: nat)
    requires j < |range|
    ensures Collect(range[j..] + rest, acc, bound) ==
            if |acc + {range[j]}| >= bound then acc + {range[j]}
            else Collect(range[j + 1..] + rest, acc + {range[j]}, bound)
  {
    assert (range[j..] + rest)[1..] == range[j + 1..] + rest;
  }

  /** An index is in the flattened stream exactly when it is in one of the buckets. */
  lemma {:induction false} FlattenMembership(bs: seq<seq<nat>>, x: nat)
    ensures x in Flatten(bs) <==> exists i :: 0 <= i < |bs| && x in bs[i]
  {
    if |bs| > 0 {
      FlattenMembership(bs[1..], x);
      if x in Flatten(bs[1..]) {
        var i :| 0 <= i < |bs| - 1 && x in bs[1..][i];
        assert x in bs[i + 1];
      }
      if exists i :: 0 <= i < |bs| && x in bs[i] {
        var i :| 0 <= i < |bs| && x in bs[i];
        if i > 0 {
          assert x in bs[1..][i - 1];
        }
      }
    }
  }

  lemma UnionIsStream<T>(tables: seq<Table>, gs: seq<CompoundHash<T>>, q: seq<T>)
    requires |gs| == |tables| && WellFormed(gs)
    ensures Elems(Flatten(Buckets(tables, gs, q))) == BucketUnion(tables, gs, q)
  {
    var bs := Buckets(tables, gs, q);
    forall x | x in Elems(Flatten(bs)) ensures x in BucketUnion(tables, gs, q) {
      FlattenMembership(bs, x);
    }
    forall x | x in BucketUnion(tables, gs, q) ensures x in Elems(Flatten(bs)) {
      var i :| 0 <= i < |tables| && x in Bucket(tables[i], Evaluate(gs[i], q));
      assert x in bs[i];
      FlattenMembership(bs, x);
    }
  }

  /**
    `query` returns at most `2 * L` indices, all from the probed buckets; it
    returns `min(|union|, 2 * L)` of them, and the whole union when that fits.
   */
  lemma QueryResultSize<T>(tables: seq<Table>, gs: seq<CompoundHash<T>>, q: seq<T>)
    requires |gs| == |tables| && WellFormed(gs)
    ensures QueryResult(tables, gs, q) <= BucketUnion(tables, gs, q)
    ensures |QueryResult(tables, gs, q)| == Min(|BucketUnion(tables, gs, q)|, 2 * |gs|)
    ensures |QueryResult(tables, gs, q)| <= 2 * |gs|
    ensures |BucketUnion(tables, gs, q)| <= 2 * |gs| ==> QueryResult(tables, gs, q) == BucketUnion(tables, gs, q)
  {
    var s := Flatten(Buckets(tables, gs, q));
    if |gs| == 0 {
      assert Buckets(tables, gs, q) == [];
    }
    CollectSpec(s, {}, 2 * |gs|);
    UnionIsStream(tables, gs, q);
    assert {} + Elems(s) == Elems(s);
  }

  /**
    Every index `query(q)` returns is a valid dataset index, stored in some
    table `i` under `g[i](q)`, and its vector has that same key in table `i`.
   */
  lemma QueryResultSound<T>(tables: seq<Table>, gs: seq<CompoundHash<T>>, data: seq<seq<T>>, q: seq<T>)
    requires Consistent(gs, tables, data)
    ensures forall idx :: idx in QueryResult(tables, gs, q) ==>
      idx < |data| &&
      exists i :: (0 <= i < |gs| && idx in Bucket(tables[i], Evaluate(gs[i], q)) &&
        Evaluate(gs[i], data[idx]) == Evaluate(gs[i], q))
  {
    QueryResultSize(tables, gs, q);
    forall idx | idx in QueryResult(tables, gs, q)
      ensures idx < |data|
      ensures exists i :: (0 <= i < |gs| && idx in Bucket(tables[i], Evaluate(gs[i], q)) &&
        Evaluate(gs[i], data[idx]) == Evaluate(gs[i], q))
    {
      assert idx in BucketUnion(tables, gs, q);
      var i :| 0 <= i < |tables| && idx in Bucket(tables[i], Evaluate(gs[i], q));
      TableMembership(gs[i], data, Evaluate(gs[i], q), idx);
    }
  }

  /**
    Querying with a stored vector: its index is in the union of the probed
    buckets, the result is never empty, and it contains the index whenever
    the union fits within `2 * L`.
   */
  lemma QueryFindsStoredVector<T>(tables: seq<Table>, gs: seq<CompoundHash<T>>, data: seq<seq<T>>, n: nat)
    requires Consistent(gs, tables, data) && 0 < |gs| && n < |data|
    ensures n in BucketUnion(tables, gs, data[n])
    ensures QueryResult(tables, gs, data[n]) != {}
    ensures |BucketUnion(tables, gs, data[n])| <= 2 * |gs| ==> n in QueryResult(tables, gs, data[n])
  {
    TableMembership(gs[0], data, Evaluate(gs[0], data[n]), n);
    QueryResultSize(tables, gs, data[n]);
  }

  /** The one-table index of EarlyExitDropsStoredVector: three equal vectors under one copied `G`. */
  function WitnessHash(): CompoundHash<int>
  {
    NewCompoundHash(1, ProjectionHash((x: seq<int>) => 7), [3], [5])
  }

  /** Its only table holds indices 0, 1 and 2 in one bucket. */
  lemma WitnessBucket()
    ensures var c := WitnessHash();
      Bucket(BuildTable(c, [[1], [1], [1]]), Evaluate(c, [1])) == [0, 1, 2]
  {
    var c := WitnessHash();
    var key := Evaluate(c, [1]);
    var keys := KeysOf(c, [[1], [1], [1]]);
    assert keys == [key, key, key];
    assert keys[..2] == [key, key] && keys[..2][..1] == [key] && keys[..2][..1][..0] == [];
    assert Bucket(InsertAll(keys[..2][..1]), key) == [0];
    assert Bucket(InsertAll(keys[..2]), key) == [0, 1];
  }

  /** Collecting `[0, 1, 2]` with bound 2 stops after the second entry. */
  lemma WitnessCollect()
    ensures Collect([0, 1, 2], {}, 2) == {0, 1}
  {
    var s: seq<nat> := [0, 1, 2];
    assert s[1..] == [1, 2];
    assert |{0} + {1}| == 2;
  }

  /**
    The early exit can drop a stored vector from its own query: with one
    table and three equal vectors, bucket `[0, 1, 2]` is cut after two
    entries, so querying with vector 2 does not return index 2.
   */
  lemma EarlyExitDropsStoredVector()
    ensures var data := [[1], [1], [1]];
      var tables := [BuildTable(WitnessHash(), data)];
      Consistent([WitnessHash()], tables, data) &&
      QueryResult(tables, [WitnessHash()], data[2]) == {0, 1} &&
      2 !in QueryResult(tables, [WitnessHash()], data[2])
  {
    var c := WitnessHash();
    var data: seq<seq<int>> := [[1], [1], [1]];
    var t := BuildTable(c, data);
    WitnessBucket();
    WitnessCollect();
    var bs := Buckets([t], [c], data[2]);
    assert bs == [[0, 1, 2]];
    assert Flatten(bs) == [0, 1, 2] by {
      assert bs[1..] == [];
    }
  }

  /**
    With a family of copies, every table computes the same key for a vector
    and holds the same entries, so the `L` tables together offer no more
    candidates than table 0 alone.
   */
  lemma ReplicatedTablesCollapse<T>(tables: seq<Table>, gs: seq<CompoundHash<T>>, data: seq<seq<T>>, q: seq<T>)
    requires Consistent(gs, tables, data) && Replicated(gs) && 0 < |gs|
    ensures forall i :: 0 <= i < |gs| ==> Evaluate(gs[i], q) == Evaluate(gs[0], q)
    ensures forall i :: 0 <= i < |tables| ==> tables[i] == tables[0]
    ensures BucketUnion(tables, gs, q) == Elems(Bucket(tables[0], Evaluate(gs[0], q)))
  {
    var first := Elems(Bucket(tables[0], Evaluate(gs[0], q)));
    forall x | x in BucketUnion(tables, gs, q) ensures x in first {
      var i :| 0 <= i < |tables| && x in Bucket(tables[i], Evaluate(gs[i], q));
      assert gs[i] == gs[0];
    }
  }

  /** `LSHClass`: the dataset, the hash family `g` and the tables `hash_tables`. */
  class LSHClass<T> {
    const K: int
    const L: int
    const d: int
    const r: int
    const g: seq<CompoundHash<T>>
    var data: seq<seq<T>>
    var hashTables: seq<Table>

    /** `L` copies of one compound hash and `L` tables, each holding exactly one entry per dataset index. */
    ghost predicate Valid()
      reads this
    {
      0 <= K && 0 <= L && |g| == L &&
      (forall i :: 0 <= i < L ==> g[i].k == K) &&
      Replicated(g) && Consistent(g, hashTables, data)
    }

    /**
      The constructor: `g` is `l` copies of one `G(d, k, r)`, whose `k`
      projection slots hold copies of one `H(d, r)`. The random draws of
      that `H` and of `r1`, `r2` are given as `proj`, `r1` and `r2`.
     */
    constructor(d: int, k: int, l: int, r: int, proj: ProjectionHash<T>, r1: seq<Int32>, r2: seq<Int32>)
      requires 0 <= d && 0 <= k && 0 <= l && |r1| == k && |r2| == k
      ensures Valid()
      ensures K == k && L == l && this.d == d && this.r == r
      ensures g == seq(l, _ => NewCompoundHash(k, proj, r1, r2))
      ensures data == [] && hashTables == seq(l, _ => map[])
    {
      K, L, this.d, this.r := k, l, d, r;
      g := seq(l, _ => NewCompoundHash(k, proj, r1, r2));
      data := [];
      hashTables := seq(l, _ => map[]);
    }

    /**
      `add(val)`: `val` becomes the last dataset entry, and every table gains
      exactly the entry `(g[i](val), |data| - 1)`.
     */
    method Add(val: seq<T>)
      requires Valid()
      modifies this
      ensures Valid()
      ensures data == old(data) + [val]
      ensures |hashTables| == L
      ensures forall i :: 0 <= i < L ==> hashTables[i] == Insert(old(hashTables[i]), Evaluate(g[i], val), |old(data)|)
      ensures forall i, key :: 0 <= i < L ==>
        Bucket(hashTables[i], key) ==
          Bucket(old(hashTables[i]), key) + (if key == Evaluate(g[i], val) then [|old(data)|] else [])
    {
      ghost var before := hashTables;
      data := data + [val];
      hashTables := InsertEach(hashTables, g, val, |data| - 1);
      AppendConsistent(g, before, old(data), val, hashTables);
    }

    /**
      `query(q)`: visits the tables in order and collects the indices in
      bucket `g[i](q)` of table `i`, returning as soon as `2 * L` are held.
      Indices stand for the addresses `&data[idx]` the source returns.
     */
    method Query(q: seq<T>) returns (result: set<nat>)
      requires Valid()
      ensures result == QueryResult(hashTables, g, q)
      ensures |result| <= 2 * L
      ensures forall idx :: idx in result ==>
        idx < |data| && exists i :: 0 <= i < L && idx in Bucket(hashTables[i], Evaluate(g[i], q))
    {
      ghost var bs := Buckets(hashTables, g, q);
      result := {};
      var i := 0;
      while i < L
        invariant 0 <= i <= L
        invariant QueryResult(hashTables, g, q) == Collect(Flatten(bs[i..]), result, 2 * L)
      {
        var h := Evaluate(g[i], q);
        var range := Bucket(hashTables[i], h);
        assert Flatten(bs[i..]) == range + Flatten(bs[i + 1..]) by {
          assert bs[i] == range;
          assert bs[i..][1..] == bs[i + 1..];
        }
        var j := 0;
        while j < |range|
          invariant 0 <= j <= |range|
          invariant QueryResult(hashTables, g, q) == Collect(range[j..] + Flatten(bs[i + 1..]), result, 2 * L)
        {
          CollectUnfold(range, Flatten(bs[i + 1..]), j, result, 2 * L);
          result := result + {range[j]};
          j := j + 1;
          if |result| >= 2 * L {
            QueryFacts(q);
            return;
          }
        }
        assert range[j..] + Flatten(bs[i + 1..]) == Flatten(bs[i + 1..]);
        i := i + 1;
      }
      QueryFacts(q);
    }

    /** The bound and the soundness of QueryResult, for the current state. */
    lemma QueryFacts(q: seq<T>)
      requires Valid()
      ensures |QueryResult(hashTables, g, q)| <= 2 * L
      ensures forall idx :: idx in QueryResult(hashTables, g, q) ==>
        idx < |data| && exists i :: 0 <= i < L && idx in Bucket(hashTables[i], Evaluate(g[i], q))
    {
      QueryResultSize(hashTables, g, q);
      QueryResultSound(hashTables, g, data, q);
    }
  }
}
