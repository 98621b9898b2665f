/** The chained hash table of src/lib/kernel/hash.c, as a finite set keyed by what `less` cannot
    tell apart. A bucket list is a sequence; whether an allocation succeeds is a parameter. */
module HashTable {
  import opened Sequences
  import opened HashBits
  import opened Orders
  import opened Options

  /** Equality as the table sees it. */
  predicate Same<E>(less: (E, E) -> bool, a: E, b: E) {
    !less(a, b) && !less(b, a)
  }

  // What the client promises: an order, and equal elements hash alike.
  ghost predicate Client<E(!new)>(hash: E -> nat, less: (E, E) -> bool) {
    StrictWeakOrder(less) && forall a, b :: Same(less, a, b) ==> hash(a) == hash(b)
  }

  // Element x is in bucket b if and only if it belongs there.
  ghost predicate Placed<E>(buckets: seq<seq<E>>, hash: E -> nat, elems: set<E>, b: int, x: E)
    requires |buckets| > 0 && 0 <= b < |buckets|
  {
    x in buckets[b] <==> x in elems && hash(x) % |buckets| == b
  }

  ghost predicate Table<E(!new)>(buckets: seq<seq<E>>, hash: E -> nat, elems: set<E>) {
    && |buckets| > 0
    && (forall b, x {:trigger Placed(buckets, hash, elems, b, x)} :: 0 <= b < |buckets| ==>
          Placed(buckets, hash, elems, b, x))
    && (forall b {:trigger Distinct(buckets[b])} :: 0 <= b < |buckets| ==> Distinct(buckets[b]))
  }

  // No two elements of the set are the same to the table.
  ghost predicate Keyed<E>(less: (E, E) -> bool, elems: set<E>) {
    forall x, y {:trigger Same(less, x, y)} :: x in elems && y in elems && Same(less, x, y) ==> x == y
  }

  lemma PushTable<E(!new)>(buckets: seq<seq<E>>, hash: E -> nat, elems: set<E>, e: E)
    requires Table(buckets, hash, elems) && e !in elems
    ensures var b := hash(e) % |buckets|; Table(buckets[b := [e] + buckets[b]], hash, elems + {e})
  {
    var b := hash(e) % |buckets|;
    var n := buckets[b := [e] + buckets[b]];
    forall c, x | 0 <= c < |n| ensures Placed(n, hash, elems + {e}, c, x) { assert Placed(buckets, hash, elems, c, x); }
    assert Placed(buckets, hash, elems, b, e);
    forall c | 0 <= c < |n| ensures Distinct(n[c]) { assert Distinct(buckets[c]); }
  }

  lemma UnlinkTable<E(!new)>(buckets: seq<seq<E>>, hash: E -> nat, elems: set<E>, b: nat, k: nat)
    requires Table(buckets, hash, elems) && b < |buckets| && k < |buckets[b]|
    ensures Table(buckets[b := RemoveAt(buckets[b], k)], hash, elems - {buckets[b][k]})
    ensures buckets[b][k] in elems && hash(buckets[b][k]) % |buckets| == b
  {
    var e := buckets[b][k];
    assert Distinct(buckets[b]);
    RemoveAtDistinct(buckets[b], k);
    var n := buckets[b := RemoveAt(buckets[b], k)];
    assert Placed(buckets, hash, elems, b, e);
    forall c, x | 0 <= c < |n| ensures Placed(n, hash, elems - {e}, c, x) { assert Placed(buckets, hash, elems, c, x); }
    forall c | 0 <= c < |n| ensures Distinct(n[c]) { assert Distinct(buckets[c]); }
  }

  class Hash<E(!new, ==)> {
    const hash: E -> nat
    const less: (E, E) -> bool
    var elemCnt: nat
    var bucketCnt: nat
    var buckets: seq<seq<E>>
    ghost var elems: set<E>     // the set the table stands for

    ghost predicate Valid()
      reads this
    {
      && Client(hash, less)
      && |buckets| == bucketCnt && IsPow2(bucketCnt) && bucketCnt >= 4
      && Table(buckets, hash, elems) && Keyed(less, elems) && elemCnt == |elems|
    }

    /** hash_init with hash_clear. */
    constructor (hash: E -> nat, less: (E, E) -> bool)
      requires Client(hash, less)
      ensures Valid() && elems == {} && this.hash == hash && this.less == less
    {
      this.hash := hash;
      this.less := less;
      elemCnt := 0;
      bucketCnt := 4;
      buckets := [[], [], [], []];
      elems := {};
      new;
      assert Numbers.Pow2(2) == 4;
    }

    /** find_bucket. */
    function FindBucket(e: E): (b: nat)
      requires Valid()
      reads this
      ensures b < |buckets| && b == hash(e) % |buckets|
    {
      assert And(hash(e), bucketCnt - 1) == hash(e) % bucketCnt by {
        var k: nat :| bucketCnt == Numbers.Pow2(k);
        MaskIsRemainder(hash(e), k);
      }
      And(hash(e), bucketCnt - 1)
    }

    /** find_elem: an equal element anywhere in the table is in this bucket. */
    method FindElem(bucket: nat, e: E) returns (r: Option<E>, k: nat)
      requires Valid() && bucket == FindBucket(e)
      ensures r.Some? ==>
        r.value in elems && Same(less, r.value, e) && k < |buckets[bucket]| && buckets[bucket][k] == r.value
      ensures r.None? ==> forall x :: x in elems ==> !Same(less, x, e)
    {
      k := 0;
      while k < |buckets[bucket]|
        invariant k <= |buckets[bucket]|
        invariant forall i :: 0 <= i < k ==> !Same(less, buckets[bucket][i], e)
      {
        var hi := buckets[bucket][k];
        if !less(hi, e) && !less(e, hi) {
          assert Placed(buckets, hash, elems, bucket, hi);
          return Some(hi), k;
        }
        k := k + 1;
      }
      r := None;
      forall x | x in elems ensures !Same(less, x, e) {
        assert Placed(buckets, hash, elems, bucket, x);
      }
    }

    /** insert_elem. */
    method InsertElem(bucket: nat, e: E)
      requires Valid() && bucket == FindBucket(e) && forall x :: x in elems ==> !Same(less, x, e)
      modifies this
      ensures Valid() && elems == old(elems) + {e} && bucketCnt == old(bucketCnt)
      ensures buckets == old(buckets)[bucket := [e] + old(buckets)[bucket]]
    {
      assert Same(less, e, e);
      PushTable(buckets, hash, elems, e);
      NewKey(less, elems, e);
      elemCnt := elemCnt + 1;
      buckets := buckets[bucket := [e] + buckets[bucket]];
      elems := elems + {e};
    }

    /** remove_elem of the element at place k of a bucket. */
    method RemoveElem(bucket: nat, k: nat)
      requires Valid() && bucket < |buckets| && k < |buckets[bucket]|
      modifies this
      ensures Valid() && elems == old(elems) - {old(buckets)[bucket][k]} && bucketCnt == old(bucketCnt)
    {
      UnlinkTable(buckets, hash, elems, bucket, k);
      ghost var e := buckets[bucket][k];
      elemCnt := elemCnt - 1;
      buckets := buckets[bucket := RemoveAt(buckets[bucket], k)];
      elems := elems - {e};
    }

    /** rehash: the same elements, in as many buckets as suit their number if there is memory. */
    method Rehash(gotMemory: bool)
      requires Valid()
      modifies this
      ensures Valid() && elems == old(elems)
      ensures gotMemory ==> elemCnt < 4 * bucketCnt && (bucketCnt > 4 ==> 2 * bucketCnt <= elemCnt)
      ensures !gotMemory ==> buckets == old(buckets)
    {
      var newBucketCnt := elemCnt / 2;
      if newBucketCnt < 4 { newBucketCnt := 4; }
      ghost var wish := newBucketCnt;
      newBucketCnt := RoundDown(newBucketCnt);
      AtLeastFour(newBucketCnt, wish);
      if newBucketCnt == bucketCnt || !gotMemory { return; }
      var oldBuckets := buckets;
      ghost var all := elems;
      buckets := seq(newBucketCnt, i => []);
      bucketCnt := newBucketCnt;
      MoveAll(oldBuckets, all);
    }

    // The loops of rehash, over the old buckets.
    method MoveAll(oldBuckets: seq<seq<E>>, ghost all: set<E>)
      requires Table(oldBuckets, hash, all) && |buckets| == bucketCnt && bucketCnt > 0 && IsPow2(bucketCnt)
      requires forall b :: 0 <= b < |buckets| ==> buckets[b] == []
      modifies this`buckets
      ensures |buckets| == bucketCnt && Table(buckets, hash, all)
    {
      ghost var moved: set<E> := {};
      var i := 0;
      while i < |oldBuckets|
        invariant i <= |oldBuckets| && |buckets| == bucketCnt && Table(buckets, hash, moved)
        invariant moved == set x | x in all && hash(x) % |oldBuckets| < i
      {
        moved := MoveBucket(oldBuckets, all, i, moved);
        i := i + 1;
      }
      assert moved == all;
    }

    method MoveBucket(oldBuckets: seq<seq<E>>, ghost all: set<E>, i: nat,
                      ghost before: set<E>) returns (ghost moved: set<E>)
      requires Table(oldBuckets, hash, all) && |buckets| == bucketCnt && bucketCnt > 0 && IsPow2(bucketCnt)
      requires i < |oldBuckets|
      requires Table(buckets, hash, before) && before == set x | x in all && hash(x) % |oldBuckets| < i
      modifies this`buckets
      ensures |buckets| == bucketCnt && Table(buckets, hash, moved)
      ensures moved == set x | x in all && hash(x) % |oldBuckets| < i + 1
    {
      moved := before;
      var j := 0;
      assert Distinct(oldBuckets[i]);
      while j < |oldBuckets[i]|
        invariant j <= |oldBuckets[i]| && |buckets| == bucketCnt && Table(buckets, hash, moved)
        invariant moved == before + set x | x in oldBuckets[i][..j]
      {
        var elem := oldBuckets[i][j];
        assert Placed(oldBuckets, hash, all, i, elem);
        var b := And(hash(elem), bucketCnt - 1);
        MaskOf(hash(elem), bucketCnt);
        PushTable(buckets, hash, moved, elem);
        buckets := buckets[b := [elem] + buckets[b]];
        moved := moved + {elem};
        j := j + 1;
      }
      forall x | x in all && hash(x) % |oldBuckets| < i + 1
        ensures x in moved
      {
        assert Placed(oldBuckets, hash, all, i, x);
      }
      forall x | x in moved
        ensures x in all && hash(x) % |oldBuckets| < i + 1
      {
        assert Placed(oldBuckets, hash, all, i, x);
      }
    }

    /** hash_insert. */
    method Insert(e: E, gotMemory: bool) returns (r: Option<E>)
      requires Valid()
      modifies this
      ensures Valid()
      ensures r.Some? ==> r.value in old(elems) && Same(less, r.value, e) && elems == old(elems)
      ensures r.None? ==> (forall x :: x in old(elems) ==> !Same(less, x, e)) && elems == old(elems) + {e}
      ensures gotMemory ==> elemCnt < 4 * bucketCnt
    {
      var bucket := FindBucket(e);
      var k;
      r, k := FindElem(bucket, e);
      if r.None? { InsertElem(bucket, e); }
      Rehash(gotMemory);
    }

    /** hash_replace. */
    method Replace(e: E, gotMemory: bool) returns (r: Option<E>)
      requires Valid()
      modifies this
      ensures Valid()
      ensures r.Some? ==> r.value in old(elems) && Same(less, r.value, e) && elems == old(elems) - {r.value} + {e}
      ensures r.None? ==> (forall x :: x in old(elems) ==> !Same(less, x, e)) && elems == old(elems) + {e}
      ensures gotMemory ==> elemCnt < 4 * bucketCnt
    {
      var bucket := FindBucket(e);
      var k;
      r, k := FindElem(bucket, e);
      if r.Some? {
        OnlyOne(less, elems, r.value, e);
        RemoveElem(bucket, k);
      }
      InsertElem(bucket, e);
      Rehash(gotMemory);
    }

    /** hash_find. */
    method Find(e: E) returns (r: Option<E>)
      requires Valid()
      ensures r.Some? ==> r.value in elems && Same(less, r.value, e)
      ensures r.None? ==> forall x :: x in elems ==> !Same(less, x, e)
    {
      var k;
      r, k := FindElem(FindBucket(e), e);
    }

    /** hash_size. */
    method Size() returns (n: nat)
      requires Valid()
      ensures n == |elems| == Entries(buckets)
    {
      EntriesAreElements(buckets, hash, elems);
      n := elemCnt;
    }

    /** hash_delete. */
    method Delete(e: E, gotMemory: bool) returns (r: Option<E>)
      requires Valid()
      modifies this
      ensures Valid()
      ensures r.Some? ==> r.value in old(elems) && Same(less, r.value, e) && elems == old(elems) - {r.value}
      ensures r.None? ==> (forall x :: x in old(elems) ==> !Same(less, x, e)) && elems == old(elems)
      ensures r.Some? && gotMemory ==> elemCnt < 4 * bucketCnt
    {
      var bucket := FindBucket(e);
      var k;
      r, k := FindElem(bucket, e);
      if r.Some? {
        RemoveElem(bucket, k);
        Rehash(gotMemory);
      }
    }
  }

  lemma NewKey<E(!new)>(less: (E, E) -> bool, elems: set<E>, e: E)
    requires Keyed(less, elems) && forall x :: x in elems ==> !Same(less, x, e)
    ensures Keyed(less, elems + {e})
  {
  }

  lemma OnlyOne<E(!new)>(less: (E, E) -> bool, elems: set<E>, y: E, e: E)
    requires StrictWeakOrder(less) && Keyed(less, elems) && y in elems && Same(less, y, e)
    ensures forall x :: x in elems - {y} ==> !Same(less, x, e)
  {
    forall x | x in elems && Same(less, x, e) ensures x == y { assert Same(less, x, y); }
  }

  lemma AtLeastFour(n: nat, m: nat)
    requires IsPow2(n) && 4 <= m < 2 * n
    ensures n >= 4
  {
    var k: nat :| n == Numbers.Pow2(k);
    if k < 2 { assert Numbers.Pow2(1) == 2 && Numbers.Pow2(0) == 1; }
  }

  lemma MaskOf(x: nat, n: nat)
    requires IsPow2(n)
    ensures n > 0 && And(x, n - 1) == x % n
  {
    var k: nat :| n == Numbers.Pow2(k);
    MaskIsRemainder(x, k);
  }

  // ---------------------------------------------------------------------------------------
  // The count.

  /** How many entries all the lists have together. */
  ghost function Entries<E>(buckets: seq<seq<E>>): nat {
    if buckets == [] then 0 else Entries(buckets[..|buckets| - 1]) + |buckets[|buckets| - 1]|
  }

  lemma {:induction false} ListSize<E>(s: seq<E>)
    requires Distinct(s)
    ensures |set x | x in s| == |s|
  {
    if s != [] {
      var rest := s[..|s| - 1];
      ListSize(rest);
      assert s == rest + [s[|s| - 1]];
      assert (set x | x in s) == (set x | x in rest) + {s[|s| - 1]};
    }
  }

  ghost function Below<E>(buckets: seq<seq<E>>, hash: E -> nat, elems: set<E>, i: nat): set<E>
    requires |buckets| > 0
  {
    set x | x in elems && hash(x) % |buckets| < i
  }

  lemma {:induction false} EntriesBelow<E(!new)>(buckets: seq<seq<E>>, hash: E -> nat, elems: set<E>, i: nat)
    requires Table(buckets, hash, elems) && i <= |buckets|
    ensures Entries(buckets[..i]) == |Below(buckets, hash, elems, i)|
  {
    if i > 0 {
      EntriesBelow(buckets, hash, elems, i - 1);
      assert buckets[..i][..i - 1] == buckets[..i - 1];
      assert Distinct(buckets[i - 1]);
      ListSize(buckets[i - 1]);
      var bucket := buckets[i - 1];
      var here := set x | x in bucket;
      forall x | x in here
        ensures x in elems && hash(x) % |buckets| == i - 1
      {
        assert Placed(buckets, hash, elems, i - 1, x);
      }
      forall x | x in elems && hash(x) % |buckets| == i - 1
        ensures x in here
      {
        assert Placed(buckets, hash, elems, i - 1, x);
      }
      assert Below(buckets, hash, elems, i) == Below(buckets, hash, elems, i - 1) + here;
      assert Below(buckets, hash, elems, i - 1) !! here;
    }
  }

  /** The entries of all buckets are the elements, each once. */
  lemma EntriesAreElements<E(!new)>(buckets: seq<seq<E>>, hash: E -> nat, elems: set<E>)
    requires Table(buckets, hash, elems)
    ensures Entries(buckets) == |elems|
  {
    EntriesBelow(buckets, hash, elems, |buckets|);
    assert buckets[..|buckets|] == buckets;
    assert Below(buckets, hash, elems, |buckets|) == elems;
  }
}
