/**
  The hash functions of the index: the bucket key `lshHash`, the projection
  hash `H` (kept abstract) and the compound hash `G` that folds `k`
  projections into a two-integer key.
 */
module Hashing {
  import opened Wrapping

  /** A bucket key: the pair `(h1, h2)` of C++ `int`s. */
  datatype LshHash = LshHash(h1: Int32, h2: Int32)

  /** `lshHash::operator==`: field-by-field comparison, which is exactly key identity. */
  function KeyEquals(x: LshHash, y: LshHash): (eq: bool)
    ensures eq <==> x == y
  {
    x.h1 == y.h1 && x.h2 == y.h2
  }

  /**
    A projection hash `H`. Its parameters (`a`, `b`, the width `r`) and its
    floating-point arithmetic are not modelled: `apply` stands for
    `H::operator()`, a deterministic function from a vector to an `int`.
   */
  datatype ProjectionHash<!T> = ProjectionHash(apply: seq<T> -> Int32)

  /**
    A compound hash `G`: `k` projection hashes and the integer coefficient
    vectors `r1` and `r2`.
   */
  datatype CompoundHash<!T> = CompoundHash(k: nat, h: seq<ProjectionHash<T>>, r1: seq<Int32>, r2: seq<Int32>)
  {
    /** The three vectors have length `k`, as the constructor sizes them. */
    predicate Valid()
    {
      |h| == k && |r1| == k && |r2| == k
    }
  }

  /**
    The constructor of `G`: the vector `h` is filled with `k` copies of one
    projection hash `proj`; the random draws for `r1` and `r2` are given.
   */
  function NewCompoundHash<T>(k: nat, proj: ProjectionHash<T>, r1: seq<Int32>, r2: seq<Int32>): (c: CompoundHash<T>)
    requires |r1| == k && |r2| == k
    ensures c.Valid() && c.k == k && c.r1 == r1 && c.r2 == r2
    ensures forall i :: 0 <= i < k ==> c.h[i] == proj
  {
    CompoundHash(k, seq(k, _ => proj), r1, r2)
  }

  /** The local vector `a` of `G::operator()`: `a[i] = h[i](x)` for `i < k`. */
  function Projections<T>(c: CompoundHash<T>, x: seq<T>): seq<Int32>
    requires c.Valid()
  {
    seq<Int32>(c.k, i requires 0 <= i < c.k => c.h[i].apply(x))
  }

  /**
    `G::operator()`: both key halves are the wrapped sums over `i < k` of
    `h[i](x) * r1[i]` and of `h[i](x) * r2[i]`.
   */
  function Evaluate<T>(c: CompoundHash<T>, x: seq<T>): (key: LshHash)
    requires c.Valid()
    ensures key.h1 == Wrap32(Dot(Projections(c, x), c.r1))
    ensures key.h2 == Wrap32(Dot(Projections(c, x), c.r2))
  {
    var a := Projections(c, x);
    LshHash(InnerProduct32(a, c.r1), InnerProduct32(a, c.r2))
  }

  /**
    Because the constructor copies one `H` into all `k` slots, the key of a
    vector depends on that single projection value `p` only:
    `h1 = wrap(p * sum(r1))` and `h2 = wrap(p * sum(r2))`.
   */
  lemma {:induction false} CopiedProjectionsKey<T>(k: nat, proj: ProjectionHash<T>, r1: seq<Int32>, r2: seq<Int32>, x: seq<T>)
    requires |r1| == k && |r2| == k
    ensures var p := proj.apply(x);
      Evaluate(NewCompoundHash(k, proj, r1, r2), x) == LshHash(Wrap32(p * Sum(r1)), Wrap32(p * Sum(r2)))
  {
    var c := NewCompoundHash(k, proj, r1, r2);
    var p := proj.apply(x);
    assert Projections(c, x) == Repeat(p, k);
    DotRepeat(p, r1, k);
    DotRepeat(p, r2, k);
    assert r1[..k] == r1 && r2[..k] == r2;
  }

  /** Two vectors whose shared projection value agrees fall into the same bucket of a copied `G`. */
  lemma SameProjectionSameKey<T>(k: nat, proj: ProjectionHash<T>, r1: seq<Int32>, r2: seq<Int32>, x: seq<T>, y: seq<T>)
    requires |r1| == k && |r2| == k
    requires proj.apply(x) == proj.apply(y)
    ensures Evaluate(NewCompoundHash(k, proj, r1, r2), x) == Evaluate(NewCompoundHash(k, proj, r1, r2), y)
  {
    CopiedProjectionsKey(k, proj, r1, r2, x);
    CopiedProjectionsKey(k, proj, r1, r2, y);
  }
}
