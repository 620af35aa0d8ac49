# LSH index model

A Dafny model of the indexing engine of a locality-sensitive hashing (LSH)
nearest-neighbour search (`LSH/LSH/LSH.h`). It covers these parts:

- the bucket key `lshHash`;
- the compound hash `G`, which folds `k` projection hashes into a two-int key;
- the index `LSHClass`, which holds an append-only dataset and `L` hash tables. It offers `add` and `query`.

Files:

- `wrapping.dfy` (module `Wrapping`) covers C++ `int` arithmetic. Every `+` and `*` wraps modulo 2^32. It also holds the `std::inner_product` fold with an `int` initial value of 0. That fold is proved equal to the true inner product, wrapped.
- `hashing.dfy` (module `Hashing`) holds `lshHash` and its `operator==`. It also holds `H`, kept as an opaque deterministic `int`-valued function, and `G` with its constructor and its `operator()`.
- `index.dfy` (module `Index`) holds the tables and the class `LSHClass`. Each table is an `unordered_multimap`, modelled as a map from key to the indices stored under it, in insertion order. The class has the constructor, `Add` and `Query`.

`LSHClass.Valid()` is the index invariant. It holds under the constructor, `add` and `query`, but not after `LoadFile` (see "## Left out"). Table `i` equals the table you get by inserting `data[0]`, `data[1]`, … in turn under `g[i]` (`BuildTable`). All `g[i]` are copies of `g[0]`. `Add` keeps the invariant. `Query` is proved equal to the specification function `QueryResult`, which is the collection with early exit over the probed buckets. The lemmas about `QueryResult` give three facts:

- the result has at most `2 * L` indices;
- it is sound;
- it is exactly the union of the probed buckets whenever that union fits.

`query` returns addresses `&data[idx]`. The model returns the indices `idx` instead; each address matches exactly one index.

The comment at `LSH/LSH/LSH.h:17` points to the E2LSH manual (section 3.5.2 of http://www.mit.edu/~andoni/LSH/manual.pdf). In that scheme the `k` projections of each compound hash and the `L` compound hashes are drawn independently. The code does not do this, and the model follows the code:

- `G`'s constructor fills `h` with `k` copies of one `H`, and `LSHClass` fills `g` with `L` copies of one `G`. The model states the consequences:
  - `CopiedProjectionsKey`: a key depends only on one projection value.
  - `ReplicatedTablesCollapse`: the `L` tables are identical, so together they return no more candidates than table 0.
- The `2 * L` early exit in `query` can drop a stored vector from its own query. `EarlyExitDropsStoredVector` gives an instance: one table and three equal vectors. With the bound at 2, one of the three always misses its own query, whatever the bucket order. Under the insertion order the model keeps, that vector is index 2; a container that puts newer equal keys first would drop index 0 instead. `QueryFindsStoredVector` proves that for `L >= 1` the result of querying a stored vector is never empty. It also proves that the stored index is returned whenever the union of the probed buckets has at most `2 * L` indices.
- `add` and `query` do not check the length of a vector against `d`, and neither does the model.
- `H` truncates with `static_cast<int>` after an `int`-initialised `inner_product`. `H` stays abstract here, so the model claims nothing about that arithmetic.

## Model

| member | source | states |
|---|---|---|
| `Hashing.KeyEquals` | LSH/LSH/LSH.h:18-25 | Two keys compare equal exactly when both `h1` and `h2` agree, i.e. exactly when they are the same key |
| `Wrapping.InnerProduct32` | LSH/LSH/LSH.h:90-91 | The left-to-right `int` fold `acc = acc + a[i] * b[i]` starting from 0 equals the true inner product wrapped to 32 bits |
| `Hashing.NewCompoundHash` | LSH/LSH/LSH.h:69-78 | `G`'s constructor gives a well-formed hash with `k` slots that all hold the same projection `H`, plus the given coefficient vectors `r1`, `r2` |
| `Hashing.Evaluate` | LSH/LSH/LSH.h:80-93 | With `Projections(c, x)` the local vector `a` of lines 83-88 (`a[i] = h[i](x)` for `i < k`), `h1` is the wrapped sum over `i < k` of `a[i] * r1[i]`; `h2` is the same sum with `r2` |
| `Hashing.CopiedProjectionsKey` | LSH/LSH/LSH.h:69-93 | Because all `k` projections are copies, the key of `x` is `(wrap(p * sum r1), wrap(p * sum r2))` with `p = H(x)` |
| `Hashing.SameProjectionSameKey` | LSH/LSH/LSH.h:69-93 | Two vectors with the same single projection value get the same bucket key |
| `Index.Insert` | LSH/LSH/LSH.h:128 | A multimap insert adds one entry under its key and leaves every other bucket unchanged |
| `Index.InsertEach` | LSH/LSH/LSH.h:126-129 | The loop of `add` over `i < L`: each table `i` becomes `Insert(tables[i], g[i](v), idx)`, so it gains exactly the entry `(g[i](v), idx)`; the number of tables is unchanged |
| `Index.BuildTableAppend` | LSH/LSH/LSH.h:120-130 | Building a table over `data + [v]` is inserting `(g(v), |data|)` into the table built over `data` |
| `Index.TableEntryCount` | LSH/LSH/LSH.h:120-130 | In a table built by `add`, the range `Bucket(t, key)` that `equal_range` (line 139) returns holds each index below `|data|` exactly once when its vector hashes to `key`, and holds no other index |
| `Index.TableMembership` | LSH/LSH/LSH.h:120-130 | In a table built by `add`, an index is in the range `Bucket(t, key)` that `equal_range` (line 139) returns exactly when it is a dataset index whose vector hashes to `key` |
| `Index.Collect` | LSH/LSH/LSH.h:141-150 | The collection loop with early exit returns a superset of its start set and a subset of the start set plus the visited entries; its size is stated by `Index.CollectSpec` |
| `Index.CollectSpec` | LSH/LSH/LSH.h:141-150 | The collection loop with early exit keeps its start set, adds only visited entries, and ends with `min(|all|, bound)` elements; below the bound it returns all of them |
| `Index.QueryResultSize` | LSH/LSH/LSH.h:132-153 | The query result is a subset of the union of the probed buckets, has `min(|union|, 2L)` elements, so never more than `2L`, and equals the union when the union fits |
| `Index.QueryResultSound` | LSH/LSH/LSH.h:136-144 | Every returned index is `< |data|`, is stored in some table `i` under `g[i](q)`, and its vector hashes to `g[i](q)` |
| `Index.QueryFindsStoredVector` | LSH/LSH/LSH.h:120-153 | For `L >= 1`, querying with a stored vector yields a non-empty result; the vector's index is in the probed union, and it is returned whenever that union has at most `2L` indices |
| `Index.EarlyExitDropsStoredVector` | LSH/LSH/LSH.h:141-150 | With `L = 1` and three equal stored vectors, bucket `[0, 1, 2]` is cut after two entries: querying with vector 2 returns `{0, 1}`, without index 2. The dropped index follows the model's insertion order; under any order one of the three is dropped |
| `Index.ReplicatedTablesCollapse` | LSH/LSH/LSH.h:114-116 | With `L` copies of one `G`, every table computes the same key and holds the same entries, so the union over all tables is bucket `g[0](q)` of table 0 |
| `Index.LSHClass.constructor` | LSH/LSH/LSH.h:114-116 | Builds `g` as `l` copies of one `G(d, k, r)` and `l` empty tables over an empty dataset, and establishes the index invariant |
| `Index.LSHClass.Add` | LSH/LSH/LSH.h:120-130 | Appends `val` to `data`, leaving earlier entries unchanged; each table `i < L` becomes its old contents with the entry `(g[i](val), old |data|)` inserted, and no bucket changes otherwise; the invariant is kept |
| `Index.LSHClass.Query` | LSH/LSH/LSH.h:132-153 | Changes nothing; returns the `2L`-bounded collection over buckets `g[i](q)` in table order; at most `2L` indices, each a valid index stored under `g[i](q)` in some table |

## Left out

- `LoadFile` and `WriteFile` are not modelled. They do file I/O through the `DataBase` collaborator and floating-point text conversion. `DataBase.h` is not part of this model; the dataset is assumed to start empty. `LoadFile` overwrites `data` without updating the tables, so the loaded vectors are in no table. `Valid()` therefore holds only under the constructor, `add` and `query`.
- The arithmetic of `H::operator()` is not modelled: doubles, `inner_product` with an `int` initial value, and truncation by `static_cast<int>`. `H` is an opaque deterministic function to `int`, so the model says nothing about distance sensitivity or quantisation.
- The random draws of `a`, `b`, `r1` and `r2` through `Randomer` are not modelled. `Randomer.h` is not part of this model; the constructor takes the drawn values as parameters.
- The constructor's `d` and `r` reach only `H`: the size of its vector `a(d)` and its width `r`. The stored `LSHClass::d` is read only by `LoadFile`, which checks the first record's length against it (`LSH/LSH/LSH.h:159`) and is left out. The stored `LSHClass::r`, `G::d`, `G::r` and `H::d` are never read. `add` and `query` do not check vector length. A vector longer than `d` makes `H` read past `a`, and the model does not capture that.
- The `std::hash<lshHash>` specialisation is not modelled. It only affects bucket placement inside the container, not lookup results.
- Bucket iteration order is not modelled as unspecified. Within a bucket the model fixes insertion order. Which indices survive an early exit therefore follows that order.
- Query results are indices, not the addresses `&data[idx]`, so pointer identity and invalidation on reallocation are not modelled.
- Signed overflow is modelled as two's-complement wrap-around. In C++ it is undefined behaviour.
- `Index.LSHClass.Add`: the conversion of `size(data) - 1` to `int` is not modelled as wrapping. Indices are unbounded naturals, which matters only beyond 2^31 entries.
- `Index.LSHClass.Query`: `2 * L` is computed without `int` overflow. Only table counts above 2^30 would differ.
- `Index.LSHClass.constructor`: requires `d >= 0`, `k >= 0` and `l >= 0`. The model does not cover the `std::length_error` that a negative size throws when the vectors are constructed. Every call builds one `G` and therefore one `H`, whose vector `a(d)` throws for `d < 0` even when `k` or `l` is 0. The default arguments (`k = 4`, `l = 10`, `r = 2`) are not modelled; callers pass every value.
- Concurrency is not modelled; the source is single-threaded.
