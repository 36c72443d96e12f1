/** The aggregation pipeline stages the reports use: `$group` with a
    `$sum: 1` count and a `$sum` of a field, `$sort` on the count in
    descending order, and `$limit`. */
module Aggregate {

  /** One group of a `$group` stage: its key, how many items fell into it and
      the sum of the summed field over those items. */
  datatype Bucket<K> = Bucket(key: K, count: nat, total: int)

  /** Number of items whose key is `k`. */
  function CountKey<K(==)>(items: seq<(K, int)>, k: K): nat {
    if items == [] then 0
    else CountKey(items[..|items| - 1], k) + (if items[|items| - 1].0 == k then 1 else 0)
  }

  /** Sum of the values of the items whose key is `k`. */
  function SumKey<K(==)>(items: seq<(K, int)>, k: K): int {
    if items == [] then 0
    else SumKey(items[..|items| - 1], k) + (if items[|items| - 1].0 == k then items[|items| - 1].1 else 0)
  }

  /** Sum of the values of all items. */
  function SumAll<K(==)>(items: seq<(K, int)>): int {
    if items == [] then 0 else SumAll(items[..|items| - 1]) + items[|items| - 1].1
  }

  function ItemKeys<K(==)>(items: seq<(K, int)>): set<K> {
    set i | 0 <= i < |items| :: items[i].0
  }

  lemma ItemKeysSnoc<K>(items: seq<(K, int)>, x: (K, int))
    ensures ItemKeys(items + [x]) == ItemKeys(items) + {x.0}
  {
    var t := items + [x];
    forall k | k in ItemKeys(t) ensures k in ItemKeys(items) + {x.0} {
      var i :| 0 <= i < |t| && t[i].0 == k;
      if i < |items| { assert items[i].0 == k; }
    }
    forall k | k in ItemKeys(items) ensures k in ItemKeys(t) {
      var i :| 0 <= i < |items| && items[i].0 == k;
      assert t[i].0 == k;
    }
    assert t[|items|].0 == x.0;
  }

  function BucketKeys<K(==)>(bs: seq<Bucket<K>>): set<K> {
    set i | 0 <= i < |bs| :: bs[i].key
  }

  predicate DistinctKeys<K(==)>(bs: seq<Bucket<K>>) {
    forall i, j :: 0 <= i < j < |bs| ==> bs[i].key != bs[j].key
  }

  /** Every bucket holds at least one item, as a `$group` output does. */
  predicate NonEmptyBuckets<K(==)>(bs: seq<Bucket<K>>) {
    forall i :: 0 <= i < |bs| ==> bs[i].count > 0
  }

  /** The count of the first bucket with key `k`, 0 when there is none. */
  function CountIn<K(==)>(bs: seq<Bucket<K>>, k: K): nat {
    if bs == [] then 0 else if bs[0].key == k then bs[0].count else CountIn(bs[1..], k)
  }

  /** The total of the first bucket with key `k`, 0 when there is none. */
  function TotalIn<K(==)>(bs: seq<Bucket<K>>, k: K): int {
    if bs == [] then 0 else if bs[0].key == k then bs[0].total else TotalIn(bs[1..], k)
  }

  function CountSum<K(==)>(bs: seq<Bucket<K>>): nat {
    if bs == [] then 0 else bs[0].count + CountSum(bs[1..])
  }

  function TotalSum<K(==)>(bs: seq<Bucket<K>>): int {
    if bs == [] then 0 else bs[0].total + TotalSum(bs[1..])
  }

  lemma BucketKeysCons<K>(b: Bucket<K>, s: seq<Bucket<K>>)
    ensures BucketKeys([b] + s) == {b.key} + BucketKeys(s)
  {
    var t := [b] + s;
    forall x | x in BucketKeys(t) ensures x in {b.key} + BucketKeys(s) {
      var i :| 0 <= i < |t| && t[i].key == x;
      if i > 0 { assert s[i - 1].key == x; }
    }
    forall x | x in BucketKeys(s) ensures x in BucketKeys(t) {
      var i :| 0 <= i < |s| && s[i].key == x;
      assert t[i + 1].key == x;
    }
    assert t[0].key == b.key;
  }

  lemma DistinctCons<K>(b: Bucket<K>, s: seq<Bucket<K>>)
    ensures DistinctKeys(s) && b.key !in BucketKeys(s) ==> DistinctKeys([b] + s)
  {
    if DistinctKeys(s) && b.key !in BucketKeys(s) {
      var t := [b] + s;
      forall i, j | 0 <= i < j < |t| ensures t[i].key != t[j].key {
        if i == 0 { assert t[j].key == s[j - 1].key; }
      }
    }
  }

  /** What the bucket-side functions say about `[b] + s`. */
  lemma Cons<K>(b: Bucket<K>, s: seq<Bucket<K>>)
    ensures ([b] + s)[0] == b && ([b] + s)[1..] == s
    ensures BucketKeys([b] + s) == {b.key} + BucketKeys(s)
    ensures DistinctKeys(s) && b.key !in BucketKeys(s) ==> DistinctKeys([b] + s)
    ensures NonEmptyBuckets(s) && b.count > 0 ==> NonEmptyBuckets([b] + s)
    ensures CountSum([b] + s) == b.count + CountSum(s) && TotalSum([b] + s) == b.total + TotalSum(s)
  {
    BucketKeysCons(b, s);
    DistinctCons(b, s);
    assert ([b] + s)[1..] == s;
  }

  /** Accumulates one item into the groups: the bucket for `k` gains one
      item and `v` on its total, or a new bucket is opened for `k`. */
  function Accumulate<K(==)>(bs: seq<Bucket<K>>, k: K, v: int): (r: seq<Bucket<K>>)
    requires DistinctKeys(bs)
    ensures DistinctKeys(r) && BucketKeys(r) == BucketKeys(bs) + {k}
    ensures NonEmptyBuckets(bs) ==> NonEmptyBuckets(r)
    ensures CountSum(r) == CountSum(bs) + 1 && TotalSum(r) == TotalSum(bs) + v
  {
    if bs == [] then
      var b := Bucket(k, 1, v);
      Cons(b, bs);
      [b] + bs
    else
      var tail := bs[1..];
      assert bs == [bs[0]] + tail;
      Cons(bs[0], tail);
      if bs[0].key == k then
        var b := bs[0].(count := bs[0].count + 1, total := bs[0].total + v);
        Cons(b, tail);
        [b] + tail
      else
        var rest := Accumulate(tail, k, v);
        Cons(bs[0], rest);
        [bs[0]] + rest
  }

  /** Accumulating an item of key `k` adds one item and `v` to the bucket of
      `k` and leaves every other key's bucket as it was. */
  lemma {:induction false} AccumulateAt<K>(bs: seq<Bucket<K>>, k: K, v: int, x: K)
    requires DistinctKeys(bs)
    ensures CountIn(Accumulate(bs, k, v), x) == CountIn(bs, x) + (if x == k then 1 else 0)
    ensures TotalIn(Accumulate(bs, k, v), x) == TotalIn(bs, x) + (if x == k then v else 0)
  {
    var r := Accumulate(bs, k, v);
    if bs != [] && bs[0].key != k {
      assert DistinctKeys(bs[1..]);
      AccumulateAt(bs[1..], k, v, x);
      assert r[1..] == Accumulate(bs[1..], k, v);
    } else if bs != [] {
      assert r[1..] == bs[1..];
    }
  }

  /** `$group` by key, counting the items and summing their values. */
  function Group<K(==,!new)>(items: seq<(K, int)>): (r: seq<Bucket<K>>)
    ensures DistinctKeys(r) && NonEmptyBuckets(r)
    ensures BucketKeys(r) == ItemKeys(items)
    ensures forall x :: CountIn(r, x) == CountKey(items, x)
    ensures forall x :: TotalIn(r, x) == SumKey(items, x)
    ensures CountSum(r) == |items| && TotalSum(r) == SumAll(items)
  {
    if items == [] then []
    else
      var init := items[..|items| - 1];
      var last := items[|items| - 1];
      assert ItemKeys(items) == ItemKeys(init) + {last.0};
      forall x { AccumulateAt(Group(init), last.0, last.1, x); }
      Accumulate(Group(init), last.0, last.1)
  }

  /** In buckets with distinct keys, looking a bucket's key up finds that bucket. */
  lemma {:induction false} LookupDistinct<K>(bs: seq<Bucket<K>>, i: nat)
    requires DistinctKeys(bs) && i < |bs|
    ensures CountIn(bs, bs[i].key) == bs[i].count
    ensures TotalIn(bs, bs[i].key) == bs[i].total
  {
    if i > 0 {
      LookupDistinct(bs[1..], i - 1);
    }
  }

  predicate NonIncreasing<K(==)>(bs: seq<Bucket<K>>) {
    forall i, j :: 0 <= i < j < |bs| ==> bs[i].count >= bs[j].count
  }

  lemma SortedCons<K>(b: Bucket<K>, s: seq<Bucket<K>>)
    requires NonIncreasing(s) && (s == [] || b.count >= s[0].count)
    ensures NonIncreasing([b] + s)
  {
    var t := [b] + s;
    forall i, j | 0 <= i < j < |t| ensures t[i].count >= t[j].count {
      if i == 0 { assert t[j] == s[j - 1]; assert s[0].count >= s[j - 1].count; }
    }
  }

  /** Inserts `b` into a list sorted by descending count, before the first
      bucket whose count does not exceed its own. */
  function Insert<K(==)>(b: Bucket<K>, s: seq<Bucket<K>>): (r: seq<Bucket<K>>)
    requires NonIncreasing(s)
    ensures NonIncreasing(r)
    ensures multiset(r) == multiset(s) + multiset{b}
    ensures r[0] == b || (s != [] && r[0] == s[0])
  {
    if s == [] || b.count >= s[0].count then
      SortedCons(b, s);
      [b] + s
    else
      var rest := Insert(b, s[1..]);
      assert s == [s[0]] + s[1..];
      SortedCons(s[0], rest);
      [s[0]] + rest
  }

  /** Reordering buckets keeps their set of keys. */
  lemma KeysOfPermutation<K>(a: seq<Bucket<K>>, b: seq<Bucket<K>>)
    requires multiset(a) == multiset(b)
    ensures BucketKeys(a) == BucketKeys(b)
  {
    forall x | x in BucketKeys(a) ensures x in BucketKeys(b) {
      var i :| 0 <= i < |a| && a[i].key == x;
      assert a[i] in multiset(b);
      var j :| 0 <= j < |b| && b[j] == a[i];
    }
    forall x | x in BucketKeys(b) ensures x in BucketKeys(a) {
      var j :| 0 <= j < |b| && b[j].key == x;
      assert b[j] in multiset(a);
      var i :| 0 <= i < |a| && a[i] == b[j];
    }
  }

  /** Inserting a bucket adds its key to the keys. */
  lemma InsertKeys<K>(b: Bucket<K>, s: seq<Bucket<K>>)
    requires NonIncreasing(s)
    ensures BucketKeys(Insert(b, s)) == BucketKeys(s) + {b.key}
  {
    KeysOfPermutation(Insert(b, s), [b] + s);
    BucketKeysCons(b, s);
  }

  /** Inserting a bucket whose key is new keeps the keys distinct. */
  lemma {:induction false} InsertDistinct<K>(b: Bucket<K>, s: seq<Bucket<K>>)
    requires NonIncreasing(s) && DistinctKeys(s) && b.key !in BucketKeys(s)
    ensures DistinctKeys(Insert(b, s))
  {
    if s == [] || b.count >= s[0].count {
      DistinctCons(b, s);
    } else {
      var rest := Insert(b, s[1..]);
      assert s == [s[0]] + s[1..];
      BucketKeysCons(s[0], s[1..]);
      InsertDistinct(b, s[1..]);
      InsertKeys(b, s[1..]);
      DistinctCons(s[0], rest);
    }
  }

  /** `$sort: { count: -1 }`; buckets of equal count end up in an order the
      database leaves unspecified, here that of the input. */
  function SortByCount<K(==)>(bs: seq<Bucket<K>>): (r: seq<Bucket<K>>)
    ensures NonIncreasing(r)
    ensures multiset(r) == multiset(bs)
  {
    if bs == [] then []
    else
      assert bs == [bs[0]] + bs[1..];
      Insert(bs[0], SortByCount(bs[1..]))
  }

  /** Sorting keeps distinct keys distinct. */
  lemma {:induction false} SortByCountDistinct<K>(bs: seq<Bucket<K>>)
    requires DistinctKeys(bs)
    ensures DistinctKeys(SortByCount(bs))
  {
    if bs != [] {
      assert bs == [bs[0]] + bs[1..];
      BucketKeysCons(bs[0], bs[1..]);
      SortByCountDistinct(bs[1..]);
      KeysOfPermutation(SortByCount(bs[1..]), bs[1..]);
      InsertDistinct(bs[0], SortByCount(bs[1..]));
    }
  }

  /** `$limit: n`. */
  function Limit<T>(s: seq<T>, n: nat): (r: seq<T>)
    ensures |r| <= n && |r| <= |s|
    ensures |s| <= n ==> r == s
    ensures forall i :: 0 <= i < |r| ==> r[i] == s[i]
  {
    if |s| <= n then s else s[..n]
  }

  /** A positive count for `k` means there is a bucket for `k` carrying it. */
  lemma {:induction false} CountInBucket<K>(bs: seq<Bucket<K>>, k: K) returns (i: nat)
    requires CountIn(bs, k) > 0
    ensures i < |bs| && bs[i].key == k && bs[i].count == CountIn(bs, k)
  {
    if bs[0].key == k {
      i := 0;
    } else {
      var j := CountInBucket(bs[1..], k);
      i := j + 1;
    }
  }

  /** After a reordering, every bucket still carries the count its key has
      in the distinct-keyed original. */
  lemma ReorderedCounts<K>(groups: seq<Bucket<K>>, sorted: seq<Bucket<K>>)
    requires DistinctKeys(groups) && multiset(sorted) == multiset(groups)
    ensures forall i :: 0 <= i < |sorted| ==> sorted[i].count == CountIn(groups, sorted[i].key)
  {
    forall i | 0 <= i < |sorted| ensures sorted[i].count == CountIn(groups, sorted[i].key) {
      assert sorted[i] in multiset(groups);
      var j :| 0 <= j < |groups| && groups[j] == sorted[i];
      LookupDistinct(groups, j);
    }
  }

  /** A key with a group that the first `n` sorted groups leave out ranks no
      higher than any of them. */
  lemma LeftOutRanksLower<K>(groups: seq<Bucket<K>>, sorted: seq<Bucket<K>>, n: nat, k: K)
    requires NonIncreasing(sorted) && multiset(sorted) == multiset(groups)
    requires CountIn(groups, k) > 0 && k !in BucketKeys(Limit(sorted, n))
    ensures |Limit(sorted, n)| == n
    ensures forall i :: 0 <= i < |Limit(sorted, n)| ==> CountIn(groups, k) <= Limit(sorted, n)[i].count
  {
    var r := Limit(sorted, n);
    var g := CountInBucket(groups, k);
    assert groups[g] in multiset(sorted);
    var j :| 0 <= j < |sorted| && sorted[j] == groups[g];
    assert j >= |r|;
  }

  /** `$group`, `$sort: { count: -1 }`, `$limit: n`: the `n` keys with the
      most items, most first. */
  function Rank<K(==,!new)>(items: seq<(K, int)>, n: nat): (r: seq<Bucket<K>>)
    ensures |r| <= n && NonIncreasing(r) && DistinctKeys(r)
    ensures forall i :: 0 <= i < |r| ==> r[i].count == CountKey(items, r[i].key) > 0
    ensures forall k :: CountKey(items, k) > 0 && k !in BucketKeys(r) ==>
              |r| == n && forall i :: 0 <= i < |r| ==> CountKey(items, k) <= r[i].count
  {
    var groups := Group(items);
    var sorted := SortByCount(groups);
    KeysOfPermutation(sorted, groups);
    SortByCountDistinct(groups);
    RankOf(groups, sorted, n);
    Limit(sorted, n)
  }

  lemma RankOf<K>(groups: seq<Bucket<K>>, sorted: seq<Bucket<K>>, n: nat)
    requires DistinctKeys(groups) && NonEmptyBuckets(groups)
    requires NonIncreasing(sorted) && multiset(sorted) == multiset(groups)
    requires BucketKeys(sorted) == BucketKeys(groups) && DistinctKeys(sorted)
    ensures var r := Limit(sorted, n);
            && NonIncreasing(r) && DistinctKeys(r)
            && (forall i :: 0 <= i < |r| ==> r[i].count == CountIn(groups, r[i].key) > 0)
            && (forall k :: CountIn(groups, k) > 0 && k !in BucketKeys(r) ==>
                  |r| == n && forall i :: 0 <= i < |r| ==> CountIn(groups, k) <= r[i].count)
  {
    var r := Limit(sorted, n);
    ReorderedCounts(groups, sorted);
    forall i | 0 <= i < |r| ensures r[i].count > 0 {
      assert r[i] in multiset(groups);
    }
    forall k | CountIn(groups, k) > 0 && k !in BucketKeys(r)
      ensures |r| == n && forall i :: 0 <= i < |r| ==> CountIn(groups, k) <= r[i].count
    {
      LeftOutRanksLower(groups, sorted, n, k);
    }
  }
}
