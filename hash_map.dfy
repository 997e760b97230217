/**
 * `hashMapLogic.ts`: a hash map with separate chaining. Keys are strings
 * (the only key type the visualizer uses); buckets are the array slots, each
 * an ordered list of key/value pairs. A load factor above 3/4 doubles the
 * capacity and reinserts every entry.
 */
module HashMapLogic {
  import opened Wrappers

  /** The UTF-16 code units JavaScript's `split("")` and `charCodeAt` see for one character, summed. */
  function CodeUnitSum(c: char): nat
  {
    var n := c as int;
    if n < 0x10000 then n
    else (0xD800 + (n - 0x10000) / 0x400) + (0xDC00 + (n - 0x10000) % 0x400)
  }

  /** The left fold `reduce((acc, char) => acc + char.charCodeAt(0), 0)`. */
  function CodeSum(s: string): nat
  {
    if s == [] then 0 else CodeSum(s[..|s| - 1]) + CodeUnitSum(s[|s| - 1])
  }

  /** `hash(key)` for a string key: the code-unit sum modulo the capacity. */
  function Hash(key: string, capacity: nat): (h: nat)
    requires capacity > 0
    ensures h < capacity
  {
    CodeSum(key) % capacity
  }

  /** The code-unit sum of a concatenation is the sum of the parts' sums. */
  lemma {:induction false} CodeSumAppend(a: string, b: string)
    ensures CodeSum(a + b) == CodeSum(a) + CodeSum(b)
    decreases |b|
  {
    if b == [] {
      assert a + b == a;
    } else {
      assert (a + b)[..|a + b| - 1] == a + b[..|b| - 1];
      CodeSumAppend(a, b[..|b| - 1]);
    }
  }

  /** Swapping the two halves of a key does not change its bucket. */
  lemma SwappedKeysShareBucket(a: string, b: string, capacity: nat)
    requires capacity > 0
    ensures Hash(a + b, capacity) == Hash(b + a, capacity)
  {
    CodeSumAppend(a, b);
    CodeSumAppend(b, a);
  }

  /** `bucket.findIndex(([k]) => k === key)`: the first position holding the key, or -1. */
  function FindIndex<V>(bucket: seq<(string, V)>, key: string): (r: int)
    ensures -1 <= r < |bucket|
    ensures r >= 0 ==> bucket[r].0 == key && forall j :: 0 <= j < r ==> bucket[j].0 != key
    ensures r == -1 ==> forall j :: 0 <= j < |bucket| ==> bucket[j].0 != key
  {
    if bucket == [] then -1
    else if bucket[|bucket| - 1].0 == key && FindIndex(bucket[..|bucket| - 1], key) == -1 then |bucket| - 1
    else FindIndex(bucket[..|bucket| - 1], key)
  }

  predicate DistinctKeys<V>(bucket: seq<(string, V)>)
  {
    forall i, j :: 0 <= i < j < |bucket| ==> bucket[i].0 != bucket[j].0
  }

  /** `set`'s change to one bucket: replace the key's pair in place, or push a new pair. */
  function UpdateBucket<V>(bucket: seq<(string, V)>, key: string, value: V): (r: seq<(string, V)>)
    ensures (key, value) in r
    // the bucket grows only when the key was not there
    ensures |r| == (if FindIndex(bucket, key) >= 0 then |bucket| else |bucket| + 1)
  {
    var idx := FindIndex(bucket, key);
    if idx >= 0 then
      var r := bucket[idx := (key, value)];
      assert r[idx] == (key, value);
      r
    else bucket + [(key, value)]
  }

  /** `delete`'s change to one bucket: splice out the key's pair if there is one. */
  function RemoveFromBucket<V>(bucket: seq<(string, V)>, key: string): (r: seq<(string, V)>)
    // at most one pair, the key's first, is taken out
    ensures multiset(r) <= multiset(bucket) && |bucket| - 1 <= |r| <= |bucket|
  {
    var idx := FindIndex(bucket, key);
    if idx >= 0 then
      assert bucket == bucket[..idx] + [bucket[idx]] + bucket[idx + 1..];
      bucket[..idx] + bucket[idx + 1..]
    else bucket
  }

  /** After `set`'s bucket change the bucket holds the new pair and every other key's pair, and no key twice. */
  lemma UpdateBucketMembers<V>(bucket: seq<(string, V)>, key: string, value: V)
    requires DistinctKeys(bucket)
    ensures var nb := UpdateBucket(bucket, key, value);
      DistinctKeys(nb) && forall e :: e in nb <==> e == (key, value) || (e in bucket && e.0 != key)
  {
    var idx := FindIndex(bucket, key);
    var nb := UpdateBucket(bucket, key, value);
    forall e ensures e in nb <==> e == (key, value) || (e in bucket && e.0 != key) {
      if e in nb {
        var j :| 0 <= j < |nb| && nb[j] == e;
        if j != idx && j < |bucket| { assert e == bucket[j]; }
      }
      if e == (key, value) {
        assert nb[if idx >= 0 then idx else |bucket|] == e;
      } else if e in bucket && e.0 != key {
        var j :| 0 <= j < |bucket| && bucket[j] == e;
        assert nb[j] == e;
      }
    }
    forall i, j | 0 <= i < j < |nb| ensures nb[i].0 != nb[j].0 {
      if j < |bucket| {
        assert i != idx ==> nb[i] == bucket[i];
        assert j != idx ==> nb[j] == bucket[j];
      } else {
        assert nb[i] == bucket[i];
      }
    }
  }

  /** After `delete`'s bucket change the bucket holds every other key's pair, and no key twice. */
  lemma RemoveFromBucketMembers<V>(bucket: seq<(string, V)>, key: string)
    requires DistinctKeys(bucket)
    ensures var nb := RemoveFromBucket(bucket, key);
      DistinctKeys(nb) && forall e :: e in nb <==> e in bucket && e.0 != key
  {
    var idx := FindIndex(bucket, key);
    if idx >= 0 {
      SpliceMembers(bucket, idx);
      SpliceDistinct(bucket, idx);
    }
  }

  lemma SpliceMembers<V>(bucket: seq<(string, V)>, idx: int)
    requires DistinctKeys(bucket) && 0 <= idx < |bucket|
    ensures forall e :: e in bucket[..idx] + bucket[idx + 1..] <==> e in bucket && e.0 != bucket[idx].0
  {
    var front, back := bucket[..idx], bucket[idx + 1..];
    assert bucket == front + [bucket[idx]] + back;
    forall e | e in front ensures e.0 != bucket[idx].0 {
      var j :| 0 <= j < |front| && front[j] == e;
      assert bucket[j] == e;
    }
    forall e | e in back ensures e.0 != bucket[idx].0 {
      var j :| 0 <= j < |back| && back[j] == e;
      assert bucket[idx + 1 + j] == e;
    }
  }

  lemma SpliceDistinct<V>(bucket: seq<(string, V)>, idx: int)
    requires DistinctKeys(bucket) && 0 <= idx < |bucket|
    ensures DistinctKeys(bucket[..idx] + bucket[idx + 1..])
  {
    var nb := bucket[..idx] + bucket[idx + 1..];
    forall a, b | 0 <= a < b < |nb| ensures nb[a].0 != nb[b].0 {
      var a' := if a < idx then a else a + 1;
      var b' := if b < idx then b else b + 1;
      assert nb[a] == bucket[a'];
      assert nb[b] == bucket[b'];
    }
  }

  /**
   * The mapping a bucket holds: its pairs read from first to last, a later
   * pair for the same key overriding an earlier one.
   */
  ghost function BucketMap<V>(bucket: seq<(string, V)>): map<string, V>
  {
    if bucket == [] then map[]
    else BucketMap(bucket[..|bucket| - 1])[bucket[|bucket| - 1].0 := bucket[|bucket| - 1].1]
  }

  /** The mapping a bucket list holds: the union of its buckets' mappings. */
  ghost function MapOf<V>(bs: seq<seq<(string, V)>>): map<string, V>
  {
    if bs == [] then map[] else MapOf(bs[..|bs| - 1]) + BucketMap(bs[|bs| - 1])
  }

  /** Each entry sits in the bucket its key hashes to, for the given capacity. */
  ghost predicate Hashed<V>(bs: seq<seq<(string, V)>>, capacity: nat)
    requires capacity > 0
  {
    forall i, e :: 0 <= i < |bs| && e in bs[i] ==> Hash(e.0, capacity) == i
  }

  /** No bucket holds a key twice. */
  ghost predicate AllDistinct<V>(bs: seq<seq<(string, V)>>)
  {
    forall i :: 0 <= i < |bs| ==> DistinctKeys(bs[i])
  }

  /** The number of pairs stored in a bucket list. */
  ghost function PairCount<V>(bs: seq<seq<(string, V)>>): nat
  {
    if bs == [] then 0 else PairCount(bs[..|bs| - 1]) + |bs[|bs| - 1]|
  }

  /**
   * The table invariant over the bucket list: there is at least one bucket,
   * each entry sits in the bucket its key hashes to, no bucket holds a key
   * twice, and `size` counts the stored pairs (which `SizeCountsKeys` shows
   * is the number of keys).
   */
  ghost predicate TableInv<V>(bs: seq<seq<(string, V)>>, size: nat)
  {
    |bs| > 0 && Hashed(bs, |bs|) && AllDistinct(bs) && size == PairCount(bs)
  }

  /** The table invariant for a bucket list of the given capacity. */
  ghost predicate TableOf<V>(bs: seq<seq<(string, V)>>, size: nat, capacity: nat)
  {
    |bs| == capacity && TableInv(bs, size)
  }

  /** `TableOf` with a load factor of at most 3/4. */
  ghost predicate ValidTable<V>(bs: seq<seq<(string, V)>>, size: nat, capacity: nat)
  {
    TableOf(bs, size, capacity) && 4 * size <= 3 * capacity
  }

  /** A bucket's keys are the keys of its pairs, each mapped to a value it is paired with. */
  lemma {:induction false} BucketMapKeys<V>(bucket: seq<(string, V)>)
    ensures forall e :: e in bucket ==> e.0 in BucketMap(bucket)
    ensures forall k :: k in BucketMap(bucket) ==> (k, BucketMap(bucket)[k]) in bucket
    decreases |bucket|
  {
    if bucket != [] {
      var front, last := bucket[..|bucket| - 1], bucket[|bucket| - 1];
      BucketMapKeys(front);
      assert bucket == front + [last];
    }
  }

  /** Without repeated keys, a bucket maps each of its pairs' keys to that pair's value. */
  lemma {:induction false} BucketMapValues<V>(bucket: seq<(string, V)>)
    requires DistinctKeys(bucket)
    ensures forall e :: e in bucket ==> e.0 in BucketMap(bucket) && BucketMap(bucket)[e.0] == e.1
    decreases |bucket|
  {
    if bucket != [] {
      var front, last := bucket[..|bucket| - 1], bucket[|bucket| - 1];
      BucketMapValues(front);
      assert bucket == front + [last];
      forall e | e in front ensures e.0 != last.0 {
        var j :| 0 <= j < |front| && front[j] == e;
        assert bucket[j] == e;
      }
    }
  }

  /** `find` in a bucket without repeated keys agrees with the bucket's mapping. */
  lemma FindMatchesBucket<V>(bucket: seq<(string, V)>, key: string)
    requires DistinctKeys(bucket)
    ensures var idx := FindIndex(bucket, key);
      (idx >= 0 <==> key in BucketMap(bucket)) && (idx >= 0 ==> bucket[idx].1 == BucketMap(bucket)[key])
  {
    BucketMapKeys(bucket);
    BucketMapValues(bucket);
    var idx := FindIndex(bucket, key);
    if idx >= 0 {
      assert bucket[idx] in bucket;
    }
    if key in BucketMap(bucket) {
      var j :| 0 <= j < |bucket| && bucket[j] == (key, BucketMap(bucket)[key]);
    }
  }

  /**
   * Overwriting the value of the pair at `idx`, when no later pair has its
   * key, is a single update of the bucket's mapping.
   */
  lemma {:induction false} ReplacedBucketMap<V>(bucket: seq<(string, V)>, idx: int, value: V)
    requires 0 <= idx < |bucket|
    requires forall j :: idx < j < |bucket| ==> bucket[j].0 != bucket[idx].0
    ensures BucketMap(bucket[idx := (bucket[idx].0, value)]) == BucketMap(bucket)[bucket[idx].0 := value]
    decreases |bucket|
  {
    var key, n := bucket[idx].0, |bucket|;
    var nb := bucket[idx := (key, value)];
    var front, last := bucket[..n - 1], bucket[n - 1];
    if idx == n - 1 {
      assert nb[..n - 1] == front;
    } else {
      assert nb[..n - 1] == front[idx := (key, value)];
      ReplacedBucketMap(front, idx, value);
      assert last.0 != key;
    }
  }

  /** A key no pair of the bucket carries is not in the bucket's mapping. */
  lemma {:induction false} AbsentKey<V>(bucket: seq<(string, V)>, key: string)
    requires forall j :: 0 <= j < |bucket| ==> bucket[j].0 != key
    ensures key !in BucketMap(bucket)
    decreases |bucket|
  {
    if bucket != [] {
      AbsentKey(bucket[..|bucket| - 1], key);
    }
  }

  /** Splicing a pair out of a bucket, seen from the bucket's last pair. */
  lemma SpliceSnoc<V>(bucket: seq<(string, V)>, idx: int)
    requires 0 <= idx < |bucket| - 1
    ensures var front := bucket[..|bucket| - 1];
      bucket[..idx] + bucket[idx + 1..] == (front[..idx] + front[idx + 1..]) + [bucket[|bucket| - 1]]
  {
  }

  /**
   * Splicing out the pair at `idx`, when no other pair has its key, drops
   * that key from the bucket's mapping.
   */
  lemma {:induction false} SplicedBucketMap<V>(bucket: seq<(string, V)>, idx: int)
    requires 0 <= idx < |bucket|
    requires forall j :: 0 <= j < |bucket| && j != idx ==> bucket[j].0 != bucket[idx].0
    ensures BucketMap(bucket[..idx] + bucket[idx + 1..]) == BucketMap(bucket) - {bucket[idx].0}
    decreases |bucket|
  {
    var key, n := bucket[idx].0, |bucket|;
    var front, last := bucket[..n - 1], bucket[n - 1];
    if idx == n - 1 {
      assert bucket[..idx] + bucket[idx + 1..] == front;
      AbsentKey(front, key);
    } else {
      var spliced := front[..idx] + front[idx + 1..];
      SpliceSnoc(bucket, idx);
      assert (spliced + [last])[..|spliced|] == spliced;
      SplicedBucketMap(front, idx);
    }
  }

  /** In a bucket without repeated keys no other pair has the key of the pair at `idx`. */
  lemma KeyIsUnique<V>(bucket: seq<(string, V)>, idx: int)
    requires DistinctKeys(bucket) && 0 <= idx < |bucket|
    ensures forall j :: 0 <= j < |bucket| && j != idx ==> bucket[j].0 != bucket[idx].0
  {
    forall j | 0 <= j < |bucket| && j != idx ensures bucket[j].0 != bucket[idx].0 {
      if j < idx { assert bucket[j].0 != bucket[idx].0; } else { assert bucket[idx].0 != bucket[j].0; }
    }
  }

  /** `set`'s bucket change maps the key to the new value and leaves the other keys alone. */
  lemma UpdateBucketMap<V>(bucket: seq<(string, V)>, key: string, value: V)
    requires DistinctKeys(bucket)
    ensures DistinctKeys(UpdateBucket(bucket, key, value))
    ensures BucketMap(UpdateBucket(bucket, key, value)) == BucketMap(bucket)[key := value]
  {
    UpdatedSuperset(bucket, key, value);
    var idx := FindIndex(bucket, key);
    if idx >= 0 {
      ReplacedBucketMap(bucket, idx, value);
    } else {
      assert (bucket + [(key, value)])[..|bucket|] == bucket;
    }
  }

  /** `delete`'s bucket change drops the key and leaves the other keys alone. */
  lemma RemoveFromBucketMap<V>(bucket: seq<(string, V)>, key: string)
    requires DistinctKeys(bucket)
    ensures DistinctKeys(RemoveFromBucket(bucket, key))
    ensures BucketMap(RemoveFromBucket(bucket, key)) == BucketMap(bucket) - {key}
  {
    var idx := FindIndex(bucket, key);
    if idx >= 0 {
      SpliceDistinct(bucket, idx);
      KeyIsUnique(bucket, idx);
      SplicedBucketMap(bucket, idx);
    } else {
      FindMatchesBucket(bucket, key);
      assert BucketMap(bucket) - {key} == BucketMap(bucket);
    }
  }

  /** The keys of a bucket whose pairs all hash to `i` hash to `i`. */
  lemma BucketKeysHash<V>(bucket: seq<(string, V)>, capacity: nat, i: int)
    requires capacity > 0
    requires forall e :: e in bucket ==> Hash(e.0, capacity) == i
    ensures forall k :: k in BucketMap(bucket) ==> Hash(k, capacity) == i
  {
    BucketMapKeys(bucket);
    forall k | k in BucketMap(bucket) ensures Hash(k, capacity) == i {
      assert (k, BucketMap(bucket)[k]) in bucket;
    }
  }

  /** Dropping the last bucket keeps a bucket list hashed. */
  lemma HashedFront<V>(bs: seq<seq<(string, V)>>, capacity: nat)
    requires capacity > 0 && Hashed(bs, capacity) && bs != []
    ensures Hashed(bs[..|bs| - 1], capacity)
  {
    var front := bs[..|bs| - 1];
    forall i: int, e: (string, V) | 0 <= i < |front| && e in front[i] ensures Hash(e.0, capacity) == i {
      assert front[i] == bs[i];
    }
  }

  /** In a hashed bucket list a key's entry, if any, is in the key's own bucket. */
  lemma {:induction false} MapOfFind<V>(bs: seq<seq<(string, V)>>, capacity: nat, key: string)
    requires capacity > 0 && Hashed(bs, capacity)
    ensures var h := Hash(key, capacity);
      (key in MapOf(bs) <==> h < |bs| && key in BucketMap(bs[h]))
      && (key in MapOf(bs) ==> MapOf(bs)[key] == BucketMap(bs[h])[key])
    decreases |bs|
  {
    if bs != [] {
      var front, last := bs[..|bs| - 1], bs[|bs| - 1];
      HashedFront(bs, capacity);
      MapOfFind(front, capacity, key);
      BucketKeysHash(last, capacity, |bs| - 1);
      var h := Hash(key, capacity);
      if h < |front| {
        assert bs[h] == front[h];
      }
    }
  }

  /** Under the invariant, `find` in the key's bucket answers exactly what the mapping holds. */
  lemma FindMatchesContents<V>(bs: seq<seq<(string, V)>>, size: nat, key: string)
    requires TableInv(bs, size)
    ensures var b := bs[Hash(key, |bs|)]; var idx := FindIndex(b, key);
      (idx >= 0 <==> key in MapOf(bs)) && (idx >= 0 ==> b[idx].1 == MapOf(bs)[key])
  {
    MapOfFind(bs, |bs|, key);
    FindMatchesBucket(bs[Hash(key, |bs|)], key);
  }

  /** Replacing the bucket at `h` by one whose pairs all hash to `h` keeps the list hashed. */
  lemma ReplaceBucketHashed<V>(bs: seq<seq<(string, V)>>, h: int, nb: seq<(string, V)>)
    requires |bs| > 0 && Hashed(bs, |bs|) && 0 <= h < |bs|
    requires forall e :: e in nb ==> Hash(e.0, |bs|) == h
    ensures Hashed(bs[h := nb], |bs|)
  {
    var bs' := bs[h := nb];
    forall i: int, e: (string, V) | 0 <= i < |bs'| && e in bs'[i] ensures Hash(e.0, |bs|) == i {
      if i != h { assert e in bs[i]; }
    }
  }

  /** Replacing one bucket by a bucket of distinct keys whose pairs hash to it keeps the table well formed. */
  lemma ReplaceBucketWellFormed<V>(bs: seq<seq<(string, V)>>, h: int, nb: seq<(string, V)>)
    requires |bs| > 0 && Hashed(bs, |bs|) && 0 <= h < |bs|
    requires AllDistinct(bs)
    requires DistinctKeys(nb) && forall e :: e in nb ==> Hash(e.0, |bs|) == h
    ensures Hashed(bs[h := nb], |bs|)
    ensures AllDistinct(bs[h := nb])
  {
    ReplaceBucketHashed(bs, h, nb);
    var bs' := bs[h := nb];
    forall i | 0 <= i < |bs'| ensures DistinctKeys(bs'[i]) {
      if i != h { assert bs'[i] == bs[i]; }
    }
  }

  /**
   * Replacing the bucket at `h` by one whose pairs all hash to `h` changes the
   * mapping only on the keys that hash to `h`, where it becomes the new bucket's.
   */
  lemma ReplaceBucketMap<V>(bs: seq<seq<(string, V)>>, h: int, nb: seq<(string, V)>, key: string)
    requires |bs| > 0 && Hashed(bs, |bs|) && 0 <= h < |bs|
    requires forall e :: e in nb ==> Hash(e.0, |bs|) == h
    ensures Hash(key, |bs|) != h ==>
      (key in MapOf(bs[h := nb]) <==> key in MapOf(bs))
      && (key in MapOf(bs) ==> MapOf(bs[h := nb])[key] == MapOf(bs)[key])
    ensures Hash(key, |bs|) == h ==>
      (key in MapOf(bs[h := nb]) <==> key in BucketMap(nb))
      && (key in BucketMap(nb) ==> MapOf(bs[h := nb])[key] == BucketMap(nb)[key])
  {
    ReplaceBucketHashed(bs, h, nb);
    MapOfFind(bs, |bs|, key);
    MapOfFind(bs[h := nb], |bs|, key);
  }

  /** `set`'s bucket change adds only the new pair to the pairs of other keys the bucket had. */
  lemma UpdatedSubset<V>(bucket: seq<(string, V)>, key: string, value: V)
    requires DistinctKeys(bucket)
    ensures forall e :: e in UpdateBucket(bucket, key, value) ==> e == (key, value) || (e in bucket && e.0 != key)
  {
    UpdateBucketMembers(bucket, key, value);
  }

  /** `set`'s bucket change holds the new pair and every pair of another key, and repeats no key. */
  lemma UpdatedSuperset<V>(bucket: seq<(string, V)>, key: string, value: V)
    requires DistinctKeys(bucket)
    ensures (key, value) in UpdateBucket(bucket, key, value)
    ensures forall e :: e in bucket && e.0 != key ==> e in UpdateBucket(bucket, key, value)
    ensures DistinctKeys(UpdateBucket(bucket, key, value))
  {
    UpdateBucketMembers(bucket, key, value);
  }

  /** After `set`'s bucket change every pair of the bucket still hashes to it. */
  lemma UpdatedBucketHashed<V>(bs: seq<seq<(string, V)>>, key: string, value: V)
    requires |bs| > 0 && Hashed(bs, |bs|) && DistinctKeys(bs[Hash(key, |bs|)])
    ensures var h := Hash(key, |bs|);
      forall e :: e in UpdateBucket(bs[h], key, value) ==> Hash(e.0, |bs|) == h
  {
    UpdatedSubset(bs[Hash(key, |bs|)], key, value);
  }

  /** `set`'s put, seen from one key `k`. */
  lemma PutMapOfAt<V>(bs: seq<seq<(string, V)>>, key: string, value: V, k: string)
    requires |bs| > 0 && Hashed(bs, |bs|) && DistinctKeys(bs[Hash(key, |bs|)])
    ensures var h := Hash(key, |bs|);
      var m, m' := MapOf(bs)[key := value], MapOf(bs[h := UpdateBucket(bs[h], key, value)]);
      (k in m' <==> k in m) && (k in m' ==> m'[k] == m[k])
  {
    var h := Hash(key, |bs|);
    UpdatedBucketHashed(bs, key, value);
    UpdateBucketMap(bs[h], key, value);
    ReplaceBucketMap(bs, h, UpdateBucket(bs[h], key, value), k);
    MapOfFind(bs, |bs|, k);
  }

  /** `set`'s put maps the key to the new value and leaves every other key alone. */
  lemma PutMapOf<V>(bs: seq<seq<(string, V)>>, key: string, value: V)
    requires |bs| > 0 && Hashed(bs, |bs|) && DistinctKeys(bs[Hash(key, |bs|)])
    ensures var h := Hash(key, |bs|);
      MapOf(bs[h := UpdateBucket(bs[h], key, value)]) == MapOf(bs)[key := value]
  {
    var h := Hash(key, |bs|);
    var m, m' := MapOf(bs)[key := value], MapOf(bs[h := UpdateBucket(bs[h], key, value)]);
    forall k ensures (k in m' <==> k in m) && (k in m' ==> m'[k] == m[k]) {
      PutMapOfAt(bs, key, value, k);
    }
  }

  /**
   * `set`'s put, with the new bucket `nb` and the new count `ns`, keeps the
   * invariant and maps the key to the new value.
   */
  lemma PutKeepsTable<V>(bs: seq<seq<(string, V)>>, size: nat, capacity: nat, key: string, value: V, nb: seq<(string, V)>, ns: nat)
    requires TableOf(bs, size, capacity)
    requires nb == UpdateBucket(bs[Hash(key, capacity)], key, value)
    requires ns == if key in MapOf(bs) then size else size + 1
    ensures MapOf(bs[Hash(key, capacity) := nb]) == MapOf(bs)[key := value]
    ensures TableOf(bs[Hash(key, capacity) := nb], ns, capacity)
  {
    var h := Hash(key, |bs|);
    FindMatchesContents(bs, size, key);
    PairCountUpdate(bs, h, nb);
    PutMapOf(bs, key, value);
    UpdatedSuperset(bs[h], key, value);
    UpdatedBucketHashed(bs, key, value);
    ReplaceBucketWellFormed(bs, h, nb);
  }

  /** Replacing one bucket changes the pair count by the difference in that bucket's length. */
  lemma {:induction false} PairCountUpdate<V>(bs: seq<seq<(string, V)>>, h: int, nb: seq<(string, V)>)
    requires 0 <= h < |bs|
    ensures PairCount(bs[h := nb]) == PairCount(bs) - |bs[h]| + |nb|
    decreases |bs|
  {
    var front := bs[..|bs| - 1];
    if h == |bs| - 1 {
      assert bs[h := nb][..|bs| - 1] == front;
    } else {
      assert bs[h := nb][..|bs| - 1] == front[h := nb];
      PairCountUpdate(front, h, nb);
    }
  }

  /** `delete`'s bucket change keeps only pairs the bucket had. */
  lemma RemovedSubset<V>(bucket: seq<(string, V)>, key: string)
    requires DistinctKeys(bucket)
    ensures forall e :: e in RemoveFromBucket(bucket, key) ==> e in bucket && e.0 != key
  {
    RemoveFromBucketMembers(bucket, key);
  }

  /** `delete`'s bucket change keeps every pair of another key, and repeats no key. */
  lemma RemovedSuperset<V>(bucket: seq<(string, V)>, key: string)
    requires DistinctKeys(bucket)
    ensures forall e :: e in bucket && e.0 != key ==> e in RemoveFromBucket(bucket, key)
    ensures DistinctKeys(RemoveFromBucket(bucket, key))
  {
    RemoveFromBucketMembers(bucket, key);
  }

  /** After `delete`'s bucket change every pair of the bucket still hashes to it. */
  lemma RemovedBucketHashed<V>(bs: seq<seq<(string, V)>>, key: string)
    requires |bs| > 0 && Hashed(bs, |bs|) && DistinctKeys(bs[Hash(key, |bs|)])
    ensures var h := Hash(key, |bs|);
      forall e :: e in RemoveFromBucket(bs[h], key) ==> Hash(e.0, |bs|) == h
  {
    RemovedSubset(bs[Hash(key, |bs|)], key);
  }

  /** `delete`, seen from one key `k`. */
  lemma DeleteMapOfAt<V>(bs: seq<seq<(string, V)>>, key: string, k: string)
    requires |bs| > 0 && Hashed(bs, |bs|) && DistinctKeys(bs[Hash(key, |bs|)])
    ensures var h := Hash(key, |bs|);
      var m, m' := MapOf(bs) - {key}, MapOf(bs[h := RemoveFromBucket(bs[h], key)]);
      (k in m' <==> k in m) && (k in m' ==> m'[k] == m[k])
  {
    var h := Hash(key, |bs|);
    RemovedBucketHashed(bs, key);
    RemoveFromBucketMap(bs[h], key);
    ReplaceBucketMap(bs, h, RemoveFromBucket(bs[h], key), k);
    MapOfFind(bs, |bs|, k);
  }

  /** `delete` drops the key from the mapping and leaves every other key alone. */
  lemma DeleteMapOf<V>(bs: seq<seq<(string, V)>>, key: string)
    requires |bs| > 0 && Hashed(bs, |bs|) && DistinctKeys(bs[Hash(key, |bs|)])
    ensures var h := Hash(key, |bs|);
      MapOf(bs[h := RemoveFromBucket(bs[h], key)]) == MapOf(bs) - {key}
  {
    var h := Hash(key, |bs|);
    var m, m' := MapOf(bs) - {key}, MapOf(bs[h := RemoveFromBucket(bs[h], key)]);
    forall k ensures (k in m' <==> k in m) && (k in m' ==> m'[k] == m[k]) {
      DeleteMapOfAt(bs, key, k);
    }
  }

  /** `findIndex` finds the key exactly when the mapping holds it, and then the table is not empty. */
  lemma DeleteFinds<V>(bs: seq<seq<(string, V)>>, size: nat, key: string)
    requires TableInv(bs, size)
    ensures (FindIndex(bs[Hash(key, |bs|)], key) != -1) == (key in MapOf(bs))
    ensures key in MapOf(bs) ==> size > 0
  {
    FindMatchesContents(bs, size, key);
    if key in MapOf(bs) {
      PairCountUpdate(bs, Hash(key, |bs|), []);
    }
  }

  /**
   * `delete`, with the new bucket `nb` and the new count `ns`, keeps the
   * invariant and drops the key from the mapping.
   */
  lemma DeleteKeepsTable<V>(bs: seq<seq<(string, V)>>, size: nat, capacity: nat, key: string, nb: seq<(string, V)>, ns: nat)
    requires TableOf(bs, size, capacity)
    requires nb == RemoveFromBucket(bs[Hash(key, capacity)], key)
    requires ns == if key in MapOf(bs) then size - 1 else size
    ensures MapOf(bs[Hash(key, capacity) := nb]) == MapOf(bs) - {key}
    ensures TableOf(bs[Hash(key, capacity) := nb], ns, capacity)
  {
    var h := Hash(key, |bs|);
    FindMatchesContents(bs, size, key);
    PairCountUpdate(bs, h, nb);
    DeleteMapOf(bs, key);
    RemovedSuperset(bs[h], key);
    RemovedBucketHashed(bs, key);
    ReplaceBucketWellFormed(bs, h, nb);
  }

  /** Without repeated keys, a bucket maps as many keys as it has pairs. */
  lemma {:induction false} BucketMapSize<V>(bucket: seq<(string, V)>)
    requires DistinctKeys(bucket)
    ensures |BucketMap(bucket)| == |bucket|
    decreases |bucket|
  {
    if bucket != [] {
      var front, last := bucket[..|bucket| - 1], bucket[|bucket| - 1];
      assert DistinctKeys(front) by {
        forall i, j | 0 <= i < j < |front| ensures front[i].0 != front[j].0 {
          assert front[i] == bucket[i] && front[j] == bucket[j];
        }
      }
      BucketMapSize(front);
      BucketMapKeys(front);
    }
  }

  /** Merging two maps with no key in common adds their sizes. */
  lemma DisjointMergeSize<V>(m1: map<string, V>, m2: map<string, V>)
    requires m1.Keys !! m2.Keys
    ensures |m1 + m2| == |m1| + |m2|
  {
    assert (m1 + m2).Keys == m1.Keys + m2.Keys;
  }

  /** In a hashed bucket list without repeated keys per bucket, the pairs and the keys are as many. */
  lemma {:induction false} KeyCount<V>(bs: seq<seq<(string, V)>>, capacity: nat)
    requires capacity > 0 && Hashed(bs, capacity) && AllDistinct(bs)
    ensures |MapOf(bs)| == PairCount(bs)
    decreases |bs|
  {
    if bs != [] {
      var front, last := bs[..|bs| - 1], bs[|bs| - 1];
      HashedFront(bs, capacity);
      assert AllDistinct(front) by {
        forall i | 0 <= i < |front| ensures DistinctKeys(front[i]) {
          assert front[i] == bs[i];
        }
      }
      KeyCount(front, capacity);
      BucketMapSize(last);
      BucketKeysHash(last, capacity, |bs| - 1);
      forall k | k in MapOf(front) ensures k !in BucketMap(last) {
        MapOfFind(front, capacity, k);
      }
      DisjointMergeSize(MapOf(front), BucketMap(last));
    }
  }

  /** Under the invariant `size` is the number of keys the table maps. */
  lemma SizeCountsKeys<V>(bs: seq<seq<(string, V)>>, size: nat)
    requires TableInv(bs, size)
    ensures size == |MapOf(bs)|
  {
    KeyCount(bs, |bs|);
  }

  class HashMap<V(==)> {
    /** The bucket array; each bucket is the ordered list of its key/value pairs. */
    var buckets: seq<seq<(string, V)>>
    var size: nat
    var capacity: nat

    /** The key/value mapping the buckets represent. */
    ghost function Contents(): map<string, V>
      reads this
    {
      MapOf(buckets)
    }

    /** Everything but the load factor. */
    ghost predicate Inv()
      reads this
    {
      TableOf(buckets, size, capacity)
    }

    /** `Inv` and a load factor of at most 3/4. */
    ghost predicate Valid()
      reads this
    {
      ValidTable(buckets, size, capacity)
    }

    /** `new HashMap(capacity)`; the visualizer uses the default 16. */
    constructor (initialCapacity: nat)
      requires initialCapacity > 0
      ensures Valid() && Contents() == map[]
      ensures capacity == initialCapacity && size == 0
      ensures buckets == seq(initialCapacity, _ => [])
    {
      buckets := seq(initialCapacity, _ => []);
      size := 0;
      capacity := initialCapacity;
      new;
      EmptyBuckets(buckets);
    }

    /** `get(key)`: the stored value, or `undefined`. */
    method Get(key: string) returns (r: Option<V>)
      requires Inv()
      ensures r == if key in Contents() then Some(Contents()[key]) else None
    {
      var bucket := buckets[Hash(key, capacity)];
      var idx := FindIndex(bucket, key);
      FindMatchesContents(buckets, size, key);
      r := if idx >= 0 then Some(bucket[idx].1) else None;
    }

    /** The find-and-replace-or-push part of `set`, before the load check. */
    method Put(key: string, value: V)
      requires Inv()
      modifies this`buckets, this`size
      ensures Inv() && capacity == old(capacity)
      ensures Contents() == old(Contents())[key := value]
      ensures size == if key in old(Contents()) then old(size) else old(size) + 1
      ensures var h := Hash(key, capacity); buckets == old(buckets)[h := UpdateBucket(old(buckets)[h], key, value)]
    {
      var h := Hash(key, capacity);
      var bucket := buckets[h];
      var idx := FindIndex(bucket, key);
      FindMatchesContents(buckets, size, key);
      var newBucket, newSize;
      if idx >= 0 {
        newBucket, newSize := bucket[idx := (key, value)], size;
      } else {
        newBucket, newSize := bucket + [(key, value)], size + 1;
      }
      PutKeepsTable(buckets, size, capacity, key, value, newBucket, newSize);
      buckets, size := buckets[h := newBucket], newSize;
    }

    /** `set(key, value)`: put, then resize when the load factor exceeds 0.75. */
    method Set(key: string, value: V)
      requires Valid()
      modifies this
      ensures Valid()
      ensures Contents() == old(Contents())[key := value]
      ensures size == if key in old(Contents()) then old(size) else old(size) + 1
      ensures capacity == if 4 * size > 3 * old(capacity) then 2 * old(capacity) else old(capacity)
    {
      Put(key, value);
      if 4 * size > 3 * capacity {
        Resize();
      }
    }

    /**
     * `resize()`: doubles the capacity and reinserts the entries, bucket by
     * bucket, in order. Each reinsertion is a `set` whose load check cannot
     * fire, since the doubled table holds no more entries than before.
     */
    method Resize()
      requires Inv() && 4 * size <= 3 * capacity + 4
      modifies this
      ensures Valid()
      ensures capacity == 2 * old(capacity) && Contents() == old(Contents()) && size == old(size)
    {
      var oldBuckets := buckets;
      ghost var total := size;
      capacity := capacity * 2;
      buckets := seq(capacity, _ => []);
      size := 0;
      EmptyBuckets(buckets);
      var i := 0;
      while i < |oldBuckets|
        invariant 0 <= i <= |oldBuckets| && capacity == 2 * old(capacity) && 4 * total <= 3 * capacity
        invariant TableInv(oldBuckets, total)
        invariant Inv() && Contents() == MapOf(oldBuckets[..i]) && size == PairCount(oldBuckets[..i])
      {
        NextBucket(oldBuckets, total, i);
        ReinsertBucket(oldBuckets[i]);
        i := i + 1;
      }
      assert oldBuckets[..i] == oldBuckets;
    }

    /**
     * The inner `bucket.forEach` of `resize()`: sets each pair of one old
     * bucket, in order. None of its keys is in the table yet and the table
     * has room for all of them, so the load check of each `set` never fires.
     */
    method ReinsertBucket(bucket: seq<(string, V)>)
      requires Inv() && DistinctKeys(bucket) && 4 * (size + |bucket|) <= 3 * capacity
      requires forall e :: e in bucket ==> e.0 !in Contents()
      modifies this`buckets, this`size
      ensures Inv() && size == old(size) + |bucket|
      ensures Contents() == old(Contents()) + BucketMap(bucket)
    {
      ghost var start, size0 := Contents(), size;
      var j := 0;
      assert start + BucketMap(bucket[..0]) == start;
      while j < |bucket|
        invariant 0 <= j <= |bucket| && Inv() && 4 * size <= 3 * capacity && size == size0 + j
        invariant Contents() == start + BucketMap(bucket[..j])
      {
        var (k, v) := bucket[j];
        MergeStep(start, bucket, j);
        FreshKey(start, bucket, j);
        Put(k, v);
        j := j + 1;
      }
      assert bucket[..j] == bucket;
    }

    /** `delete(key)`: removes the key's entry if there is one and reports whether it did. */
    method Delete(key: string) returns (removed: bool)
      requires Inv()
      modifies this`buckets, this`size
      ensures Inv() && capacity == old(capacity)
      ensures removed == (key in old(Contents()))
      ensures Contents() == old(Contents()) - {key}
      ensures size == if removed then old(size) - 1 else old(size)
      ensures var h := Hash(key, capacity); buckets == old(buckets)[h := RemoveFromBucket(old(buckets)[h], key)]
    {
      var h := Hash(key, capacity);
      var bucket := buckets[h];
      var itemIndex := FindIndex(bucket, key);
      DeleteFinds(buckets, size, key);
      var newBucket, newSize;
      if itemIndex != -1 {
        newBucket, newSize := bucket[..itemIndex] + bucket[itemIndex + 1..], size - 1;
      } else {
        newBucket, newSize := bucket, size;
      }
      assert newBucket == RemoveFromBucket(bucket, key);
      DeleteKeepsTable(buckets, size, capacity, key, newBucket, newSize);
      buckets, size := buckets[h := newBucket], newSize;
      removed := itemIndex != -1;
    }
  }

  /** A list of empty buckets satisfies the invariant and holds nothing. */
  lemma {:induction false} EmptyBuckets<V>(bs: seq<seq<(string, V)>>)
    requires forall i :: 0 <= i < |bs| ==> bs[i] == []
    ensures MapOf(bs) == map[]
    ensures |bs| > 0 ==> TableInv(bs, 0)
    decreases |bs|
  {
    if bs != [] {
      EmptyBuckets(bs[..|bs| - 1]);
    }
  }

  /** Merging one more pair of a bucket is a single update of the merged map. */
  lemma MergeStep<V>(m: map<string, V>, bucket: seq<(string, V)>, j: int)
    requires 0 <= j < |bucket|
    ensures m + BucketMap(bucket[..j + 1]) == (m + BucketMap(bucket[..j]))[bucket[j].0 := bucket[j].1]
  {
    assert bucket[..j + 1][..j] == bucket[..j];
  }

  /** What reinserting old bucket `i` needs, and what it adds to the merged prefix. */
  lemma NextBucket<V>(bs: seq<seq<(string, V)>>, total: nat, i: int)
    requires TableInv(bs, total) && 0 <= i < |bs|
    ensures DistinctKeys(bs[i]) && PairCount(bs[..i]) + |bs[i]| <= total
    ensures forall e :: e in bs[i] ==> e.0 !in MapOf(bs[..i])
    ensures MapOf(bs[..i + 1]) == MapOf(bs[..i]) + BucketMap(bs[i])
    ensures PairCount(bs[..i + 1]) == PairCount(bs[..i]) + |bs[i]|
  {
    EarlierBucketsDisjoint(bs, i);
    PairCountPrefix(bs, i + 1);
    assert bs[..i + 1][..i] == bs[..i];
  }

  /** Keys of bucket `i` are in none of the buckets before it. */
  lemma EarlierBucketsDisjoint<V>(bs: seq<seq<(string, V)>>, i: int)
    requires |bs| > 0 && Hashed(bs, |bs|) && 0 <= i < |bs|
    ensures forall e :: e in bs[i] ==> e.0 !in MapOf(bs[..i])
  {
    var front := bs[..i];
    assert Hashed(front, |bs|) by {
      forall j: int, e: (string, V) | 0 <= j < |front| && e in front[j] ensures Hash(e.0, |bs|) == j {
        assert front[j] == bs[j];
      }
    }
    forall e | e in bs[i] ensures e.0 !in MapOf(front) {
      MapOfFind(front, |bs|, e.0);
    }
  }

  /** A bucket's next key is in neither the starting map nor the part already merged. */
  lemma FreshKey<V>(m: map<string, V>, bucket: seq<(string, V)>, j: int)
    requires DistinctKeys(bucket) && 0 <= j < |bucket|
    requires forall e :: e in bucket ==> e.0 !in m
    ensures bucket[j].0 !in m + BucketMap(bucket[..j])
  {
    assert bucket[j] in bucket;
    AbsentKey(bucket[..j], bucket[j].0);
  }

  /** A prefix of the bucket list counts no more pairs than the whole list. */
  lemma {:induction false} PairCountPrefix<V>(bs: seq<seq<(string, V)>>, i: int)
    requires 0 <= i <= |bs|
    ensures PairCount(bs[..i]) <= PairCount(bs)
    decreases |bs|
  {
    if i < |bs| {
      var front := bs[..|bs| - 1];
      assert front[..i] == bs[..i];
      PairCountPrefix(front, i);
    } else {
      assert bs[..i] == bs;
    }
  }
}
