/**
 * `MyHashMap<K, V>`: a separate-chaining hash map whose buckets are vectors
 * of key-value pairs. The bucket of a key is a base-31 Horner sum over the
 * bytes of the key's string form, reduced modulo the capacity. Inserting
 * overwrites the value of a key already in its bucket and otherwise
 * appends; once more than three quarters of the capacity is used, as many
 * empty buckets as there are are appended, without moving any entry.
 * `MyHashMapIterator` walks a snapshot of all entries.
 *
 * The table is modelled as a value (`Table`) with step functions and
 * lemmas; the classes follow the Rust structs and are proved to
 * follow the step functions.
 */
module MyCollections {
  import opened Wrappers
  import opened Usize

  /** The number of buckets of a new map. */
  const INITIAL_CAPACITY: nat := 128

  // ---------------------------------------------------------------------
  // The hash
  // ---------------------------------------------------------------------

  /**
   * The `sum` of `hashcode` after all of `bytes`: each step multiplies by 31
   * and adds the next byte, wrapping around at 2^64 as `usize` arithmetic
   * does in a release build.
   */
  function HornerSum(bytes: seq<bv8>): (r: nat)
    ensures r < POW64
  {
    if |bytes| == 0 then 0
    else (HornerSum(bytes[..|bytes| - 1]) * 31 + bytes[|bytes| - 1] as nat) % POW64
  }

  function Pow31(n: nat): (r: nat)
    ensures r > 0
  {
    if n == 0 then 1 else 31 * Pow31(n - 1)
  }

  /** The polynomial `b0 * 31^(n-1) + b1 * 31^(n-2) + ... + b(n-1) * 31^0`, without wrap-around. */
  function Polynomial(bytes: seq<bv8>): nat {
    if |bytes| == 0 then 0
    else bytes[0] as nat * Pow31(|bytes| - 1) + Polynomial(bytes[1..])
  }

  /** Appending a byte to the key multiplies the polynomial by 31 and adds the byte. */
  lemma {:induction false} PolynomialAppend(s: seq<bv8>, b: bv8)
    ensures Polynomial(s + [b]) == Polynomial(s) * 31 + b as nat
    decreases |s|
  {
    if |s| == 0 {
      assert s + [b] == [b];
      assert [b][1..] == [];
    } else {
      assert (s + [b])[0] == s[0];
      assert (s + [b])[1..] == s[1..] + [b];
      PolynomialAppend(s[1..], b);
      assert Pow31(|s|) == 31 * Pow31(|s| - 1);
      ShiftByBase(s[0] as nat, Pow31(|s| - 1), Polynomial(s[1..]));
    }
  }

  /** The arithmetic step of `PolynomialAppend`. */
  lemma ShiftByBase(x: nat, p: nat, rest: nat)
    ensures x * (31 * p) + rest * 31 == (x * p + rest) * 31
  {
  }

  /** Reducing modulo 2^64 before the next step does not change the final reduction. */
  lemma WrapThenStep(x: nat, b: nat)
    ensures ((x % POW64) * 31 + b) % POW64 == (x * 31 + b) % POW64
  {
    var q, m := x / POW64, x % POW64;
    var y := m * 31 + b;
    assert x * 31 + b == (q * 31) * POW64 + y;
    var q1, m1 := y / POW64, y % POW64;
    ModUnique(x * 31 + b, POW64, q * 31 + q1, m1);
  }

  /** The wrapping Horner sum is the base-31 polynomial of the bytes, reduced modulo 2^64. */
  lemma {:induction false} HornerIsPolynomial(bytes: seq<bv8>)
    ensures HornerSum(bytes) == Polynomial(bytes) % POW64
    decreases |bytes|
  {
    if |bytes| > 0 {
      var s, b := bytes[..|bytes| - 1], bytes[|bytes| - 1];
      assert bytes == s + [b];
      HornerIsPolynomial(s);
      PolynomialAppend(s, b);
      WrapThenStep(Polynomial(s), b as nat);
    }
  }

  /**
   * The first byte carries the highest power of 31: the key bytes `[1, 0]`
   * sum to 31, where a sum weighting byte `i` by `31^i` would give 1.
   */
  lemma FirstByteWeighsMost()
    ensures HornerSum([1, 0]) == 31
    ensures Polynomial([1, 0]) == 1 * Pow31(1) + 0 * Pow31(0)
  {
    assert [1, 0][..1] == [1 as bv8];
    assert [1 as bv8][..0] == [];
    assert [1, 0][1..] == [0 as bv8];
  }

  /** The bucket `hashcode` computes for a key with string bytes `bytes` under `capacity` buckets. */
  function Bucket(bytes: seq<bv8>, capacity: nat): (r: nat)
    requires capacity > 0
    ensures r < capacity
  {
    HornerSum(bytes) % capacity
  }

  // ---------------------------------------------------------------------
  // Buckets and the table
  // ---------------------------------------------------------------------

  /** The first position in `bucket` holding `key`, as `iter_mut().find` finds it. */
  function FindKey<K(==), V>(bucket: seq<(K, V)>, key: K): (r: Option<nat>)
    ensures r.Some? ==> r.value < |bucket| && bucket[r.value].0 == key
    ensures r.Some? ==> forall e | 0 <= e < r.value :: bucket[e].0 != key
    ensures r.None? <==> forall e | 0 <= e < |bucket| :: bucket[e].0 != key
  {
    if |bucket| == 0 then None
    else if bucket[0].0 == key then Some(0)
    else
      match FindKey(bucket[1..], key)
      case None => None
      case Some(e) => Some(e + 1)
  }

  /** No key occurs twice in `bucket`. */
  predicate DistinctKeys<K(==), V>(bucket: seq<(K, V)>) {
    forall i, j | 0 <= i < j < |bucket| :: bucket[i].0 != bucket[j].0
  }

  /** `n` empty buckets. */
  function EmptyBuckets<K, V>(n: nat): (r: seq<seq<(K, V)>>)
    ensures |r| == n && forall b | 0 <= b < n :: r[b] == []
  {
    seq(n, _ => [])
  }

  /** The number of entries over all buckets. */
  function Count<K, V>(m: seq<seq<(K, V)>>): nat {
    if |m| == 0 then 0 else Count(m[..|m| - 1]) + |m[|m| - 1]|
  }

  /** All entries, buckets in index order and each bucket in insertion order. */
  function Flatten<K, V>(m: seq<seq<(K, V)>>): seq<(K, V)> {
    if |m| == 0 then [] else Flatten(m[..|m| - 1]) + m[|m| - 1]
  }

  lemma {:induction false} FlattenConcat<K, V>(m1: seq<seq<(K, V)>>, m2: seq<seq<(K, V)>>)
    ensures Flatten(m1 + m2) == Flatten(m1) + Flatten(m2)
    decreases |m2|
  {
    if |m2| == 0 {
      assert m1 + m2 == m1;
    } else {
      var init := m2[..|m2| - 1];
      assert (m1 + m2)[..|m1 + m2| - 1] == m1 + init;
      FlattenConcat(m1, init);
    }
  }

  /** Counting the entries bucket by bucket agrees with the length of the snapshot. */
  lemma {:induction false} FlattenLength<K, V>(m: seq<seq<(K, V)>>)
    ensures |Flatten(m)| == Count(m)
    decreases |m|
  {
    if |m| > 0 {
      FlattenLength(m[..|m| - 1]);
    }
  }

  /** Replacing bucket `b` by `x` replaces its entries in the snapshot. */
  lemma FlattenUpdate<K, V>(m: seq<seq<(K, V)>>, b: nat, x: seq<(K, V)>)
    requires b < |m|
    ensures Flatten(m) == Flatten(m[..b]) + m[b] + Flatten(m[b + 1..])
    ensures Flatten(m[b := x]) == Flatten(m[..b]) + x + Flatten(m[b + 1..])
  {
    assert m == m[..b] + [m[b]] + m[b + 1..];
    assert m[b := x] == m[..b] + [x] + m[b + 1..];
    FlattenConcat(m[..b] + [m[b]], m[b + 1..]);
    FlattenConcat(m[..b], [m[b]]);
    FlattenConcat(m[..b] + [x], m[b + 1..]);
    FlattenConcat(m[..b], [x]);
    assert Flatten([m[b]]) == m[b] by { assert [m[b]][..0] == []; }
    assert Flatten([x]) == x by { assert [x][..0] == []; }
  }

  /** Empty buckets add nothing to the snapshot. */
  lemma {:induction false} FlattenEmpty<K, V>(n: nat)
    ensures Flatten(EmptyBuckets<K, V>(n)) == []
    decreases n
  {
    if n > 0 {
      assert EmptyBuckets<K, V>(n)[..n - 1] == EmptyBuckets<K, V>(n - 1);
      FlattenEmpty<K, V>(n - 1);
    }
  }

  /**
   * Whether bucket `b` is one a key with hash sum `h` is sent to under
   * `capacity` or under one of the smaller capacities, halved down to 128,
   * that the table had before.
   */
  predicate Placed(h: nat, b: nat, capacity: nat)
    requires capacity > 0
    decreases capacity
  {
    h % capacity == b || (capacity > INITIAL_CAPACITY && Placed(h, b, capacity / 2))
  }

  /** The state of a `MyHashMap`. */
  datatype Table<K, V> = Table(size: nat, capacity: nat, buckets: seq<seq<(K, V)>>)

  /** `MyHashMap::new`: no pairs and 128 empty buckets. */
  function EmptyTable<K, V>(): Table<K, V> {
    Table(0, INITIAL_CAPACITY, EmptyBuckets(INITIAL_CAPACITY))
  }

  /** Entry `e` of bucket `b`, if there is one, sits in a bucket its key was sent to under some capacity so far. */
  predicate EntryPlaced<K, V>(m: seq<seq<(K, V)>>, capacity: nat, keyBytes: K -> seq<bv8>, b: int, e: int)
    requires capacity > 0
  {
    0 <= b < |m| && 0 <= e < |m[b]| ==> Placed(HornerSum(keyBytes(m[b][e].0)), b, capacity)
  }

  /** The keys of each bucket are distinct, and every entry is placed. */
  ghost predicate Placement<K, V>(m: seq<seq<(K, V)>>, capacity: nat, keyBytes: K -> seq<bv8>)
    requires capacity > 0
  {
    && (forall b | 0 <= b < |m| :: DistinctKeys(m[b]))
    && (forall b, e :: EntryPlaced(m, capacity, keyBytes, b, e))
  }

  /**
   * The invariant of the map: the capacity is 128 doubled some number of
   * times and is the number of buckets, `size` is the number of entries,
   * and the entries are placed.
   */
  ghost predicate Inv<K, V>(t: Table<K, V>, keyBytes: K -> seq<bv8>) {
    && t.capacity >= INITIAL_CAPACITY && t.capacity % INITIAL_CAPACITY == 0
    && IsPowerOfTwo(t.capacity / INITIAL_CAPACITY)
    && |t.buckets| == t.capacity
    && t.size == Count(t.buckets)
    && Placement(t.buckets, t.capacity, keyBytes)
  }

  /** The bucket after `(key, value)` is put into it: the value of a present key is overwritten, else the pair is appended. */
  function PutInBucket<K(==), V>(bucket: seq<(K, V)>, key: K, value: V): seq<(K, V)> {
    match FindKey(bucket, key)
    case Some(e) => bucket[e := (bucket[e].0, value)]
    case None => bucket + [(key, value)]
  }

  /** `insert`: put the pair into its bucket; a new key bumps `size` and may double the capacity. */
  function InsertStep<K(==), V>(t: Table<K, V>, keyBytes: K -> seq<bv8>, key: K, value: V): Table<K, V>
    requires t.capacity > 0 && |t.buckets| == t.capacity
  {
    var b := Bucket(keyBytes(key), t.capacity);
    var m := t.buckets[b := PutInBucket(t.buckets[b], key, value)];
    if FindKey(t.buckets[b], key).Some? then t.(buckets := m)
    else if 4 * (t.size + 1) > 3 * t.capacity then
      Table(t.size + 1, 2 * t.capacity, m + EmptyBuckets(t.capacity))
    else Table(t.size + 1, t.capacity, m)
  }

  /** A new map satisfies the invariant. */
  lemma EmptyTableInv<K, V>(keyBytes: K -> seq<bv8>)
    ensures Inv(EmptyTable<K, V>(), keyBytes)
  {
    FlattenEmpty<K, V>(INITIAL_CAPACITY);
    FlattenLength(EmptyBuckets<K, V>(INITIAL_CAPACITY));
  }

  /** A position holding `key` with no earlier one is what `FindKey` returns. */
  lemma FindKeyUnique<K, V>(bucket: seq<(K, V)>, key: K, e: nat)
    requires e < |bucket| && bucket[e].0 == key
    requires forall i | 0 <= i < e :: bucket[i].0 != key
    ensures FindKey(bucket, key) == Some(e)
  {
    assert FindKey(bucket, key).Some?;
  }

  /**
   * Putting a pair into a bucket with distinct keys: the keys stay distinct,
   * the key then holds the new value, every other entry stays where it was,
   * and the bucket's entries change by exactly the replaced or added pair.
   */
  lemma PutInBucketFacts<K, V>(bucket: seq<(K, V)>, key: K, value: V)
    requires DistinctKeys(bucket)
    ensures var r := PutInBucket(bucket, key, value);
      && DistinctKeys(r)
      && FindKey(r, key).Some? && r[FindKey(r, key).value] == (key, value)
      && (forall e | 0 <= e < |r| && r[e].0 != key :: e < |bucket| && r[e] == bucket[e])
      && (FindKey(bucket, key).Some? ==>
            && |r| == |bucket| && FindKey(r, key) == FindKey(bucket, key)
            && multiset(r) + multiset{bucket[FindKey(bucket, key).value]} == multiset(bucket) + multiset{(key, value)})
      && (FindKey(bucket, key).None? ==>
            && r == bucket + [(key, value)] && FindKey(r, key) == Some(|bucket|)
            && multiset(r) == multiset(bucket) + multiset{(key, value)})
  {
    match FindKey(bucket, key)
    case Some(e) => PutPresent(bucket, key, value, e);
    case None => PutAbsent(bucket, key, value);
  }

  /** Overwriting the pair at the key's position `e`. */
  lemma PutPresent<K, V>(bucket: seq<(K, V)>, key: K, value: V, e: nat)
    requires DistinctKeys(bucket) && FindKey(bucket, key) == Some(e)
    ensures var r := bucket[e := (key, value)];
      && DistinctKeys(r) && FindKey(r, key) == Some(e)
      && multiset(r) + multiset{bucket[e]} == multiset(bucket) + multiset{(key, value)}
      && multiset(bucket) == multiset(bucket[..e] + bucket[e + 1..]) + multiset{bucket[e]}
      && multiset(r) == multiset(bucket[..e] + bucket[e + 1..]) + multiset{(key, value)}
  {
    var r := bucket[e := (key, value)];
    FindKeyUnique(r, key, e);
    assert bucket == bucket[..e] + [bucket[e]] + bucket[e + 1..];
    assert r == bucket[..e] + [(key, value)] + bucket[e + 1..];
    assert multiset(bucket) == multiset(bucket[..e] + bucket[e + 1..]) + multiset{bucket[e]};
    assert multiset(r) == multiset(bucket[..e] + bucket[e + 1..]) + multiset{(key, value)};
  }

  /** Appending the pair of a key absent from the bucket. */
  lemma PutAbsent<K, V>(bucket: seq<(K, V)>, key: K, value: V)
    requires DistinctKeys(bucket) && FindKey(bucket, key).None?
    ensures var r := bucket + [(key, value)];
      DistinctKeys(r) && FindKey(r, key) == Some(|bucket|)
  {
    FindKeyUnique(bucket + [(key, value)], key, |bucket|);
  }

  /** Changing one bucket changes the count by the difference in its length. */
  lemma CountUpdate<K, V>(m: seq<seq<(K, V)>>, b: nat, x: seq<(K, V)>)
    requires b < |m|
    ensures Count(m[b := x]) + |m[b]| == Count(m) + |x|
  {
    FlattenUpdate(m, b, x);
    FlattenLength(m);
    FlattenLength(m[b := x]);
  }

  /** Appending empty buckets changes neither the snapshot nor the count. */
  lemma GrowKeepsEntries<K, V>(m: seq<seq<(K, V)>>, n: nat)
    ensures Flatten(m + EmptyBuckets(n)) == Flatten(m)
    ensures Count(m + EmptyBuckets(n)) == Count(m)
  {
    FlattenConcat(m, EmptyBuckets(n));
    FlattenEmpty<K, V>(n);
    FlattenLength(m);
    FlattenLength(m + EmptyBuckets(n));
  }

  /** Putting a pair into the bucket its key is sent to keeps the entries placed. */
  lemma PutKeepsPlacement<K, V>(m: seq<seq<(K, V)>>, capacity: nat, keyBytes: K -> seq<bv8>, key: K, value: V)
    requires capacity > 0 && |m| == capacity && Placement(m, capacity, keyBytes)
    ensures var b := Bucket(keyBytes(key), capacity);
      Placement(m[b := PutInBucket(m[b], key, value)], capacity, keyBytes)
  {
    var b := Bucket(keyBytes(key), capacity);
    var x := PutInBucket(m[b], key, value);
    var m' := m[b := x];
    PutInBucketFacts(m[b], key, value);
    forall c | 0 <= c < |m'|
      ensures DistinctKeys(m'[c])
    {
      if c != b {
        assert m'[c] == m[c];
      }
    }
    forall c, e
      ensures EntryPlaced(m', capacity, keyBytes, c, e)
    {
      if 0 <= c < |m'| && 0 <= e < |m'[c]| {
        if c != b {
          assert m'[c] == m[c];
          assert EntryPlaced(m, capacity, keyBytes, c, e);
        } else if m'[c][e].0 != key {
          assert m'[c][e] == m[b][e];
          assert EntryPlaced(m, capacity, keyBytes, c, e);
        }
      }
    }
  }

  /** Doubling the capacity with empty buckets keeps every entry placed, since the old capacity is the half. */
  lemma GrowKeepsPlacement<K, V>(m: seq<seq<(K, V)>>, capacity: nat, keyBytes: K -> seq<bv8>)
    requires capacity >= INITIAL_CAPACITY && |m| == capacity && Placement(m, capacity, keyBytes)
    ensures Placement(m + EmptyBuckets(capacity), 2 * capacity, keyBytes)
  {
    var m' := m + EmptyBuckets(capacity);
    forall c | 0 <= c < |m'|
      ensures DistinctKeys(m'[c])
    {
      if c < |m| {
        assert m'[c] == m[c];
      }
    }
    forall c, e
      ensures EntryPlaced(m', 2 * capacity, keyBytes, c, e)
    {
      if 0 <= c < |m'| && 0 <= e < |m'[c]| {
        assert c < |m| && m'[c] == m[c];
        assert EntryPlaced(m, capacity, keyBytes, c, e);
        assert (2 * capacity) / 2 == capacity;
      }
    }
  }

  /** Doubling keeps the capacity a multiple of 128 by a power of two. */
  lemma DoubleCapacity(capacity: nat)
    requires capacity >= INITIAL_CAPACITY && capacity % INITIAL_CAPACITY == 0
    requires IsPowerOfTwo(capacity / INITIAL_CAPACITY)
    ensures (2 * capacity) % INITIAL_CAPACITY == 0 && IsPowerOfTwo((2 * capacity) / INITIAL_CAPACITY)
  {
    var q := capacity / INITIAL_CAPACITY;
    assert capacity == INITIAL_CAPACITY * q;
    assert 2 * capacity == INITIAL_CAPACITY * (2 * q);
    assert (2 * capacity) / INITIAL_CAPACITY == 2 * q;
    assert (2 * q) / 2 == q;
  }

  /**
   * `insert` keeps the invariant. Growth keeps every old entry in the bucket
   * it was in, which still is one its key was sent to under an earlier
   * capacity.
   */
  lemma InsertKeepsInv<K, V>(t: Table<K, V>, keyBytes: K -> seq<bv8>, key: K, value: V)
    requires Inv(t, keyBytes)
    ensures Inv(InsertStep(t, keyBytes, key, value), keyBytes)
  {
    var b := Bucket(keyBytes(key), t.capacity);
    var x := PutInBucket(t.buckets[b], key, value);
    var m := t.buckets[b := x];
    PutKeepsPlacement(t.buckets, t.capacity, keyBytes, key, value);
    PutInBucketFacts(t.buckets[b], key, value);
    CountUpdate(t.buckets, b, x);
    if FindKey(t.buckets[b], key).None? && 4 * (t.size + 1) > 3 * t.capacity {
      GrowKeepsPlacement(m, t.capacity, keyBytes);
      GrowKeepsEntries(m, t.capacity);
      DoubleCapacity(t.capacity);
    }
  }

  /**
   * What `insert` does to the table: only the key's bucket of the old ones
   * changes, and there the key now holds `value`; `size` grows by one
   * exactly when the key was absent from its bucket; the capacity doubles
   * exactly when that made `size` exceed three quarters of it, and the
   * added buckets are empty.
   */
  lemma InsertShape<K, V>(t: Table<K, V>, keyBytes: K -> seq<bv8>, key: K, value: V)
    requires Inv(t, keyBytes)
    ensures var t' := InsertStep(t, keyBytes, key, value);
      var b := Bucket(keyBytes(key), t.capacity);
      var present := FindKey(t.buckets[b], key).Some?;
      && |t'.buckets| == t'.capacity >= t.capacity
      && t'.size == (if present then t.size else t.size + 1)
      && t'.capacity == (if !present && 4 * t'.size > 3 * t.capacity then 2 * t.capacity else t.capacity)
      && (forall c | 0 <= c < t.capacity && c != b :: t'.buckets[c] == t.buckets[c])
      && (forall c | t.capacity <= c < t'.capacity :: t'.buckets[c] == [])
      && FindKey(t'.buckets[b], key).Some? && t'.buckets[b][FindKey(t'.buckets[b], key).value] == (key, value)
      && (present ==> |t'.buckets[b]| == |t.buckets[b]|)
      && (!present ==> t'.buckets[b] == t.buckets[b] + [(key, value)])
  {
    var b := Bucket(keyBytes(key), t.capacity);
    PutInBucketFacts(t.buckets[b], key, value);
  }

  /**
   * The snapshot after `insert`: a new key adds its pair to the entries;
   * for a present key the old pair is replaced by the new one.
   */
  lemma InsertEntries<K, V>(t: Table<K, V>, keyBytes: K -> seq<bv8>, key: K, value: V)
    requires Inv(t, keyBytes)
    ensures var t' := InsertStep(t, keyBytes, key, value);
      var b := Bucket(keyBytes(key), t.capacity);
      match FindKey(t.buckets[b], key)
      case Some(e) =>
        multiset(Flatten(t'.buckets)) + multiset{t.buckets[b][e]} == multiset(Flatten(t.buckets)) + multiset{(key, value)}
      case None =>
        multiset(Flatten(t'.buckets)) == multiset(Flatten(t.buckets)) + multiset{(key, value)}
  {
    var b := Bucket(keyBytes(key), t.capacity);
    var x := PutInBucket(t.buckets[b], key, value);
    var m := t.buckets[b := x];
    GrowKeepsEntries(m, t.capacity);
    assert Flatten(InsertStep(t, keyBytes, key, value).buckets) == Flatten(m);
    FlattenMultisetUpdate(t.buckets, b, x);
    var bucket, q := t.buckets[b], (key, value);
    var before, after := multiset(Flatten(t.buckets)), multiset(Flatten(m));
    assert after + multiset(bucket) == before + multiset(x);
    match FindKey(bucket, key)
    case Some(e) =>
      PutPresent(bucket, key, value, e);
      assert x == bucket[e := q];
      MultisetSwap(after, before, multiset(bucket[..e] + bucket[e + 1..]), bucket[e], q);
    case None =>
      assert x == bucket + [q];
      assert after + multiset(bucket) == (before + multiset{q}) + multiset(bucket);
      MultisetCancel(after, before + multiset{q}, multiset(bucket));
  }

  /** If adding a part with `p` equals adding the same part with `q`, then `a` with `p` equals `c` with `q`. */
  lemma MultisetSwap<T>(a: multiset<T>, c: multiset<T>, rest: multiset<T>, p: T, q: T)
    requires a + (rest + multiset{p}) == c + (rest + multiset{q})
    ensures a + multiset{p} == c + multiset{q}
  {
    forall z
      ensures (a + multiset{p})[z] == (c + multiset{q})[z]
    {
      assert (a + (rest + multiset{p}))[z] == (c + (rest + multiset{q}))[z];
    }
  }

  /** Equal sums with a common part have equal other parts. */
  lemma MultisetCancel<T>(a: multiset<T>, c: multiset<T>, r: multiset<T>)
    requires a + r == c + r
    ensures a == c
  {
    forall z
      ensures a[z] == c[z]
    {
      assert (a + r)[z] == (c + r)[z];
    }
  }

  /** The snapshot's entries after bucket `b` is replaced, stated without subtraction. */
  lemma FlattenMultisetUpdate<K, V>(m: seq<seq<(K, V)>>, b: nat, x: seq<(K, V)>)
    requires b < |m|
    ensures multiset(Flatten(m[b := x])) + multiset(m[b]) == multiset(Flatten(m)) + multiset(x)
  {
    FlattenUpdate(m, b, x);
    var f1, f2 := Flatten(m[..b]), Flatten(m[b + 1..]);
    assert multiset(Flatten(m)) == multiset(f1) + multiset(m[b]) + multiset(f2);
    assert multiset(Flatten(m[b := x])) == multiset(f1) + multiset(x) + multiset(f2);
  }

  /**
   * Growth does not rehash, so the same key can end up in two buckets: a
   * stored key whose bucket under the current capacity is not the one it
   * sits in, and which is absent from that bucket, gets a second pair when
   * it is inserted again, and both pairs stay in the table.
   */
  lemma ReinsertAfterGrowthDuplicates<K, V>(t: Table<K, V>, keyBytes: K -> seq<bv8>, b: nat, e: nat, value: V)
    requires Inv(t, keyBytes) && b < |t.buckets| && e < |t.buckets[b]|
    requires Bucket(keyBytes(t.buckets[b][e].0), t.capacity) != b
    requires FindKey(t.buckets[Bucket(keyBytes(t.buckets[b][e].0), t.capacity)], t.buckets[b][e].0).None?
    ensures var key := t.buckets[b][e].0;
      var t' := InsertStep(t, keyBytes, key, value);
      var c := Bucket(keyBytes(key), t.capacity);
      && t'.size == t.size + 1
      && t'.buckets[b] == t.buckets[b]
      && t'.buckets[c] == t.buckets[c] + [(key, value)]
  {
    var key := t.buckets[b][e].0;
    InsertShape(t, keyBytes, key, value);
  }

  // ---------------------------------------------------------------------
  // The classes
  // ---------------------------------------------------------------------

  class MyHashMap<K(==), V> {
    /** The number of key-value pairs. */
    var size: nat
    /** The number of buckets. */
    var capacity: nat
    /** The buckets, the Rust field `map`. */
    var buckets: seq<seq<(K, V)>>
    /** The bytes of a key's string form, which `hashcode` reads. */
    const keyBytes: K -> seq<bv8>

    ghost function State(): Table<K, V>
      reads this
    {
      Table(size, capacity, buckets)
    }

    ghost predicate Valid()
      reads this
    {
      Inv(State(), keyBytes)
    }

    /** `MyHashMap::new`: no pairs, 128 empty buckets. */
    constructor (keyBytes: K -> seq<bv8>)
      ensures Valid() && this.keyBytes == keyBytes
      ensures State() == EmptyTable()
    {
      this.keyBytes := keyBytes;
      size, capacity, buckets := 0, INITIAL_CAPACITY, EmptyBuckets(INITIAL_CAPACITY);
      new;
      EmptyTableInv<K, V>(keyBytes);
    }

    /** `hashcode`: the Horner sum of the bytes, one byte at a time, reduced modulo the capacity. */
    method Hashcode(bytes: seq<bv8>) returns (h: nat)
      requires capacity > 0
      ensures h == Bucket(bytes, capacity)
    {
      var sum: nat := 0;
      for i := 0 to |bytes|
        invariant sum == HornerSum(bytes[..i])
      {
        assert bytes[..i + 1][..i] == bytes[..i];
        sum := (sum * 31 + bytes[i] as nat) % POW64;
      }
      assert bytes[..|bytes|] == bytes;
      h := sum % capacity;
    }

    /** `insert`: overwrite the value of a key present in its bucket, else append and possibly grow. */
    method Insert(key: K, value: V)
      requires Valid()
      modifies this
      ensures Valid()
      ensures State() == InsertStep(old(State()), keyBytes, key, value)
    {
      ghost var prev := State();
      ghost var next := InsertStep(prev, keyBytes, key, value);
      var hashcode := Hashcode(keyBytes(key));
      var bucket := buckets[hashcode];
      var e := 0;
      while e < |bucket| && bucket[e].0 != key
        invariant e <= |bucket|
        invariant forall k | 0 <= k < e :: bucket[k].0 != key
      {
        e := e + 1;
      }
      if e < |bucket| {
        FindKeyUnique(bucket, key, e);
        buckets := buckets[hashcode := bucket[e := (bucket[e].0, value)]];
      } else {
        buckets := buckets[hashcode := bucket + [(key, value)]];
        size := size + 1;
        if 4 * size > 3 * capacity {
          ghost var m := buckets;
          for i := 0 to capacity
            invariant buckets == m + EmptyBuckets(i)
            invariant size == prev.size + 1 && capacity == prev.capacity
          {
            assert EmptyBuckets<K, V>(i) + [[]] == EmptyBuckets(i + 1);
            buckets := buckets + [[]];
          }
          capacity := capacity * 2;
        }
      }
      assert State() == next;
      InsertKeepsInv(prev, keyBytes, key, value);
    }

    /** `iter`: a snapshot of all entries, bucket by bucket, with `len` the number of entries. */
    method Iter() returns (it: MyHashMapIterator<K, V>)
      requires Valid()
      ensures fresh(it) && it.Valid()
      ensures it.data == Flatten(buckets) && it.current == 0 && it.len == size
    {
      var elems: seq<(K, V)> := [];
      for b := 0 to |buckets|
        invariant elems == Flatten(buckets[..b])
      {
        var list := buckets[b];
        for e := 0 to |list|
          invariant elems == Flatten(buckets[..b]) + list[..e]
        {
          assert list[..e + 1] == list[..e] + [list[e]];
          elems := elems + [list[e]];
        }
        assert buckets[..b + 1][..b] == buckets[..b];
        assert list[..|list|] == list;
      }
      assert buckets[..|buckets|] == buckets;
      FlattenLength(buckets);
      it := new MyHashMapIterator(0, |elems|, elems);
    }
  }

  class MyHashMapIterator<K, V> {
    /** The position of the next entry to yield. */
    var current: nat
    /** The number of entries in the snapshot. */
    const len: nat
    /** The snapshot. */
    const data: seq<(K, V)>

    ghost predicate Valid()
      reads this
    {
      current <= len == |data|
    }

    /** The entries not yet yielded. */
    ghost function Remaining(): seq<(K, V)>
      reads this
      requires Valid()
    {
      data[current..]
    }

    constructor (current: nat, len: nat, data: seq<(K, V)>)
      requires current <= len == |data|
      ensures Valid() && this.current == current && this.len == len && this.data == data
    {
      this.current, this.len, this.data := current, len, data;
    }

    /** `next`: the entry at `current`, advancing it, or `None` once all `len` entries are out. */
    method Next() returns (r: Option<(K, V)>)
      requires Valid()
      modifies this
      ensures Valid()
      ensures old(current) == len ==> r == None && current == old(current)
      ensures old(current) < len ==> r == Some(data[old(current)]) && current == old(current) + 1
      ensures r.None? <==> old(Remaining()) == []
      ensures r.Some? ==> old(Remaining()) == [r.value] + Remaining()
    {
      if current == len {
        r := None;
      } else {
        current := current + 1;
        r := Some(data[current - 1]);
      }
    }
  }
}
