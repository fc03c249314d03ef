/** compat/jansson/hashtable.c: a hash table whose buckets are segments of one circular list. */
module HashTable {
  import opened Words

  /** What cmp_keys compares: the characters of a C string. */
  datatype Key = Key(text: seq<byte>)

  /** A void pointer, as the address it holds. */
  type Pointer = int

  /** A list_t: either the head of the ring or the links inside a pair_t. Key and hash of a pair never change. */
  class Link {
    var prev: Link
    var next: Link
    const key: Key
    const hash: word
    var value: Pointer

    /** list_init of a list head. */
    constructor Head()
      ensures prev == this && next == this
    {
      prev, next := this, this;
    }

    /** A pair_t, not yet in a ring. */
    constructor Pair(key: Key, value: Pointer, hash: word)
      ensures prev == this && next == this
      ensures this.key == key && this.value == value && this.hash == hash
    {
      prev, next := this, this;
      this.key, this.value, this.hash := key, value, hash;
    }
  }

  // ----- the ring -----

  /** The circular list headed by `s`, written out from the head back to the head. */
  ghost function Circle(s: Link, ring: seq<Link>): seq<Link> {
    [s] + ring + [s]
  }

  ghost predicate Distinct<T>(q: seq<T>) {
    forall i, j | 0 <= i < j < |q| :: q[i] != q[j]
  }

  /** `ring` holds the pairs of the circular list headed by `s`, in order. */
  ghost predicate Linked(s: Link, ring: seq<Link>)
    reads s, ring
  {
    s !in ring && Distinct(ring) && NeighboursAgree(Circle(s, ring))
  }

  ghost predicate NeighboursAgree(all: seq<Link>)
    reads all
  {
    forall i | 0 <= i < |all| - 1 :: all[i].next == all[i + 1] && all[i + 1].prev == all[i]
  }

  /** The link in front of which position `p` begins: a pair, or the head past the end. */
  ghost function At(s: Link, ring: seq<Link>, p: nat): Link
    requires p <= |ring|
  {
    if p == |ring| then s else ring[p]
  }

  ghost function InsertAt<T>(q: seq<T>, p: nat, x: T): seq<T>
    requires p <= |q|
  {
    q[..p] + [x] + q[p..]
  }

  ghost function RemoveAt<T>(q: seq<T>, p: nat): seq<T>
    requires p < |q|
  {
    q[..p] + q[p + 1..]
  }

  /** list_insert: puts `node` in front of `list`. */
  method ListInsert(list: Link, node: Link, ghost s: Link, ghost ring: seq<Link>, ghost p: nat)
    requires Linked(s, ring) && p <= |ring| && list == At(s, ring, p)
    requires node != s && node !in ring
    modifies s, ring, node
    ensures Linked(s, InsertAt(ring, p, node))
    ensures forall x | x in ring + [s, node] :: x.value == old(x.value)
  {
    ghost var all := Circle(s, ring);
    assert list == all[p + 1] && all[p].next == list && list.prev == all[p];
    assert all[p] == if p == 0 then s else ring[p - 1];
    node.next := list;
    node.prev := list.prev;
    list.prev.next := node;
    list.prev := node;
    ghost var all' := Circle(s, InsertAt(ring, p, node));
    assert all' == all[..p + 1] + [node] + all[p + 1..];
    forall i | 0 <= i < |all'| - 1
      ensures all'[i].next == all'[i + 1] && all'[i + 1].prev == all'[i]
    {
      if i < p { assert all'[i] == all[i] && all'[i + 1] == all[i + 1]; }
      else if i > p + 1 { assert all'[i] == all[i - 1] && all'[i + 1] == all[i]; }
    }
  }

  /** list_remove: takes `node` out; its own links stay as they were. */
  method ListRemove(node: Link, ghost s: Link, ghost ring: seq<Link>, ghost p: nat)
    requires Linked(s, ring) && p < |ring| && node == ring[p]
    modifies s, ring
    ensures Linked(s, RemoveAt(ring, p))
    ensures forall x | x in ring :: x.value == old(x.value)
  {
    ghost var all := Circle(s, ring);
    assert node == all[p + 1] && all[p].next == node && all[p + 1].next == all[p + 2];
    assert all[p] == if p == 0 then s else ring[p - 1];
    assert all[p + 2] == if p + 1 == |ring| then s else ring[p + 1];
    node.prev.next := node.next;
    node.next.prev := node.prev;
    ghost var all' := Circle(s, RemoveAt(ring, p));
    assert all' == all[..p + 1] + all[p + 2..];
    forall i | 0 <= i < |all'| - 1
      ensures all'[i].next == all'[i + 1] && all'[i + 1].prev == all'[i]
    {
      if i < p { assert all'[i] == all[i] && all'[i + 1] == all[i + 1]; }
      else if i > p { assert all'[i] == all[i + 1] && all'[i + 1] == all[i + 2]; }
    }
  }

  // ----- buckets as segments of the ring -----

  ghost predicate InBucket(x: Link, nb: nat, b: nat)
    requires nb > 0
  {
    x.hash % nb == b
  }

  /** The pairs of bucket `b` are exactly ring[lo..hi]. */
  ghost predicate Segment(ring: seq<Link>, nb: nat, b: nat, lo: nat, hi: nat)
    requires nb > 0
  {
    lo <= hi <= |ring| && forall i | 0 <= i < |ring| :: lo <= i < hi <==> InBucket(ring[i], nb, b)
  }

  /** The segment of bucket `b`, and the two pointers that delimit it: both the head when it is empty. */
  ghost predicate BucketAt(s: Link, ring: seq<Link>, nb: nat, b: nat, f: Link, l: Link, lo: nat, hi: nat)
    requires nb > 0
  {
    Segment(ring, nb, b, lo, hi)
    && if lo == hi then f == s && l == s else f == ring[lo] && l == ring[hi - 1]
  }

  ghost predicate Bucket(s: Link, ring: seq<Link>, nb: nat, b: nat, f: Link, l: Link)
    requires nb > 0
  {
    exists lo: nat, hi: nat :: BucketAt(s, ring, nb, b, f, l, lo, hi)
  }

  lemma InsertElsewhere(s: Link, ring: seq<Link>, p: nat, x: Link, nb: nat, b: nat, f: Link, l: Link)
    requires nb > 0 && p <= |ring| && Bucket(s, ring, nb, b, f, l)
    requires !InBucket(x, nb, b)
    requires p == |ring| || !InBucket(ring[p], nb, b)
    ensures Bucket(s, InsertAt(ring, p, x), nb, b, f, l)
  {
    var lo: nat, hi: nat :| BucketAt(s, ring, nb, b, f, l, lo, hi);
    var d := if p <= lo then 1 else 0;
    assert p <= lo || p >= hi;
    if lo == hi {
      assert BucketAt(s, InsertAt(ring, p, x), nb, b, f, l, 0, 0);
    } else {
      assert BucketAt(s, InsertAt(ring, p, x), nb, b, f, l, lo + d, hi + d);
    }
  }

  lemma InsertIntoEmpty(s: Link, ring: seq<Link>, x: Link, nb: nat, b: nat)
    requires nb > 0 && s !in ring && Bucket(s, ring, nb, b, s, s) && InBucket(x, nb, b)
    ensures Bucket(s, InsertAt(ring, |ring|, x), nb, b, x, x)
  {
    var lo: nat, hi: nat :| BucketAt(s, ring, nb, b, s, s, lo, hi);
    assert BucketAt(s, InsertAt(ring, |ring|, x), nb, b, x, x, |ring|, |ring| + 1);
  }

  lemma InsertInFront(s: Link, ring: seq<Link>, p: nat, x: Link, nb: nat, b: nat, l: Link, hi: nat)
    requires nb > 0 && p < hi && p < |ring| && BucketAt(s, ring, nb, b, ring[p], l, p, hi) && InBucket(x, nb, b)
    ensures Bucket(s, InsertAt(ring, p, x), nb, b, x, l)
  {
    assert BucketAt(s, InsertAt(ring, p, x), nb, b, x, l, p, hi + 1);
  }

  lemma RemoveElsewhere(s: Link, ring: seq<Link>, p: nat, nb: nat, b: nat, f: Link, l: Link)
    requires nb > 0 && p < |ring| && Bucket(s, ring, nb, b, f, l)
    requires !InBucket(ring[p], nb, b)
    ensures Bucket(s, RemoveAt(ring, p), nb, b, f, l)
  {
    var lo: nat, hi: nat :| BucketAt(s, ring, nb, b, f, l, lo, hi);
    var d := if p < lo then 1 else 0;
    if lo == hi {
      assert BucketAt(s, RemoveAt(ring, p), nb, b, f, l, 0, 0);
    } else {
      assert BucketAt(s, RemoveAt(ring, p), nb, b, f, l, lo - d, hi - d);
    }
  }

  /** The four cases of hashtable_do_del: what becomes of the pointers of the bucket that loses ring[p]. */
  lemma RemoveFrom(s: Link, ring: seq<Link>, p: nat, nb: nat, b: nat, f: Link, l: Link)
    requires nb > 0 && p < |ring| && Distinct(ring) && s !in ring
    requires Bucket(s, ring, nb, b, f, l) && InBucket(ring[p], nb, b)
    ensures ring[p] == f && ring[p] == l ==> Bucket(s, RemoveAt(ring, p), nb, b, s, s)
    ensures ring[p] == f && ring[p] != l ==> p + 1 < |ring| && Bucket(s, RemoveAt(ring, p), nb, b, ring[p + 1], l)
    ensures ring[p] != f && ring[p] == l ==> p > 0 && Bucket(s, RemoveAt(ring, p), nb, b, f, ring[p - 1])
    ensures ring[p] != f && ring[p] != l ==> Bucket(s, RemoveAt(ring, p), nb, b, f, l)
  {
    var lo: nat, hi: nat :| BucketAt(s, ring, nb, b, f, l, lo, hi);
    assert lo <= p < hi;
    var r := RemoveAt(ring, p);
    assert Segment(r, nb, b, lo, hi - 1);
    if hi - lo == 1 {
      assert BucketAt(s, r, nb, b, s, s, lo, lo);
    } else if p == lo {
      assert BucketAt(s, r, nb, b, ring[p + 1], l, lo, hi - 1);
    } else if p == hi - 1 {
      assert BucketAt(s, r, nb, b, f, ring[p - 1], lo, hi - 1);
    } else {
      assert BucketAt(s, r, nb, b, f, l, lo, hi - 1);
    }
  }

  // ----- the map a ring stands for -----

  ghost predicate DistinctKeys(q: seq<Link>) {
    forall i, j | 0 <= i < j < |q| :: q[i].key != q[j].key
  }

  ghost function MapOf(q: seq<Link>): map<Key, Pointer>
    requires DistinctKeys(q)
    reads q
  {
    map x: Link | x in q :: x.key := x.value
  }

  lemma RemoveKeepsKeys(q: seq<Link>, p: nat)
    requires p < |q| && DistinctKeys(q)
    ensures DistinctKeys(RemoveAt(q, p))
    ensures |RemoveAt(q, p)| == |q| - 1 && forall x | x in RemoveAt(q, p) :: x in q
  {
    forall i, j | 0 <= i < j < |q| - 1
      ensures RemoveAt(q, p)[i].key != RemoveAt(q, p)[j].key
    {
      assert RemoveAt(q, p)[i] == q[if i < p then i else i + 1];
      assert RemoveAt(q, p)[j] == q[if j < p then j else j + 1];
    }
  }

  lemma RemovedMembers(q: seq<Link>, p: nat)
    requires p < |q| && DistinctKeys(q)
    ensures forall x: Link :: x in RemoveAt(q, p) <==> x in q && x.key != q[p].key
  {
    forall x: Link
      ensures x in RemoveAt(q, p) <==> x in q && x.key != q[p].key
    {
      if x in q {
        var i :| 0 <= i < |q| && q[i] == x;
        if i < p { assert RemoveAt(q, p)[i] == x; }
        if i > p { assert RemoveAt(q, p)[i - 1] == x; }
      }
      if x in RemoveAt(q, p) {
        var i :| 0 <= i < |q| - 1 && RemoveAt(q, p)[i] == x;
        assert x == q[if i < p then i else i + 1];
      }
    }
  }

  lemma RemovedMap(q: seq<Link>, p: nat)
    requires p < |q| && DistinctKeys(q)
    requires DistinctKeys(RemoveAt(q, p))
    ensures MapOf(RemoveAt(q, p)) == MapOf(q) - {q[p].key}
  {
    hide RemoveAt;
    RemovedMembers(q, p);
    var a, b := MapOf(RemoveAt(q, p)), MapOf(q) - {q[p].key};
    forall k | k in a ensures k in b && a[k] == b[k] {
      var x :| x in RemoveAt(q, p) && x.key == k;
      assert x in q;
    }
    forall k | k in b ensures k in a {
      var x :| x in q && x.key == k;
      assert x in RemoveAt(q, p);
    }
  }

  /** Relinking pairs without writing their values leaves the map alone. */
  twostate lemma SameMap(q: seq<Link>)
    requires DistinctKeys(q) && forall x | x in q :: x.value == old(x.value)
    ensures MapOf(q) == old(MapOf(q))
  {
  }

  /** Writing the value of one pair updates the map `m` of before at its key. */
  lemma UpdatedMap(q: seq<Link>, p: nat, m: map<Key, Pointer>)
    requires p < |q| && DistinctKeys(q)
    requires forall x | x in q :: x.key in m && (x != q[p] ==> m[x.key] == x.value)
    requires forall k | k in m :: exists x :: x in q && x.key == k
    ensures MapOf(q) == m[q[p].key := q[p].value]
  {
    assert q[p] in q;
    forall x | x in q && x.key == q[p].key ensures x == q[p] {
      var i :| 0 <= i < |q| && q[i] == x;
    }
  }

  lemma InsertMembers(q: seq<Link>, p: nat, x: Link)
    requires p <= |q|
    ensures |InsertAt(q, p, x)| == |q| + 1
    ensures forall y: Link :: y in InsertAt(q, p, x) <==> y in q || y == x
  {
    assert q == q[..p] + q[p..];
  }

  lemma InsertedMap(q: seq<Link>, p: nat, x: Link)
    requires p <= |q| && DistinctKeys(q) && DistinctKeys(InsertAt(q, p, x))
    ensures MapOf(InsertAt(q, p, x)) == MapOf(q)[x.key := x.value]
  {
    hide InsertAt;
    InsertMembers(q, p, x);
    var a, b := MapOf(InsertAt(q, p, x)), MapOf(q)[x.key := x.value];
    forall k | k in a ensures k in b && a[k] == b[k] {
      var y :| y in InsertAt(q, p, x) && y.key == k;
      assert x in InsertAt(q, p, x);
    }
    forall k | k in b ensures k in a {
      if k == x.key { assert x in InsertAt(q, p, x); }
      else {
        var y :| y in q && y.key == k;
        assert y in InsertAt(q, p, x);
      }
    }
  }

  lemma InsertKeepsKeys(q: seq<Link>, p: nat, x: Link)
    requires p <= |q| && DistinctKeys(q)
    requires forall y | y in q :: y.key != x.key
    ensures DistinctKeys(InsertAt(q, p, x))
  {
  }

  /** From position `k` on, the links of `r` still lead to one another and then to the head. */
  ghost predicate Chain(s: Link, r: seq<Link>, k: nat)
    reads r
  {
    forall i | k <= i < |r| :: r[i].next == At(s, r, i + 1)
  }

  lemma NotYetMoved(r: seq<Link>, k: nat, ring: seq<Link>)
    requires k < |r| && Distinct(r) && multiset(ring) == multiset(r[..k])
    ensures forall i | k <= i < |r| :: r[i] !in ring
    ensures forall i | 0 <= i < |ring| :: ring[i] in r
  {
    forall i | 0 <= i < |ring| ensures ring[i] in r[..k] {
      assert ring[i] in multiset(ring);
    }
    forall i | k <= i < |r| ensures r[i] !in ring {
      assert r[i] !in multiset(ring);
    }
  }

  lemma InsertMultiset<T>(q: seq<T>, p: nat, x: T)
    requires p <= |q|
    ensures multiset(InsertAt(q, p, x)) == multiset(q) + multiset{x}
  {
    assert q == q[..p] + q[p..];
  }

  lemma EmptyRing(s: Link)
    requires s.next == s && s.prev == s
    ensures Linked(s, [])
  {
  }

  lemma SameMembers(q: seq<Link>, r: seq<Link>)
    requires multiset(r) == multiset(q)
    ensures |r| == |q| && forall x: Link :: x in q <==> x in r
    ensures forall i | 0 <= i < |r| :: r[i] in q
  {
    assert |multiset(q)| == |multiset(r)|;
    forall x: Link ensures x in q <==> x in r {
      assert x in multiset(q) <==> x in multiset(r);
    }
  }

  /** A rearrangement of the ring keeps keys apart. */
  lemma PermutedKeys(q: seq<Link>, r: seq<Link>)
    requires DistinctKeys(q) && Distinct(r) && forall x | x in r :: x in q
    ensures DistinctKeys(r)
  {
    forall i, j | 0 <= i < j < |r| ensures r[i].key != r[j].key {
      assert r[i] in q && r[j] in q;
      var a :| 0 <= a < |q| && q[a] == r[i];
      var b :| 0 <= b < |q| && q[b] == r[j];
      assert a != b;
    }
  }

  /** What a rearrangement of the ring keeps. */
  lemma Rearranged(q: seq<Link>, r: seq<Link>)
    requires DistinctKeys(q) && Distinct(r) && multiset(r) == multiset(q)
    ensures |r| == |q| && DistinctKeys(r) && MapOf(r) == MapOf(q)
    ensures forall x | x in r :: x in q
  {
    SameMembers(q, r);
    PermutedKeys(q, r);
    SameMembersSameMap(q, r);
  }

  lemma SameMembersSameMap(q: seq<Link>, r: seq<Link>)
    requires DistinctKeys(q) && DistinctKeys(r) && forall x: Link :: x in q <==> x in r
    ensures MapOf(r) == MapOf(q)
  {
  }

  /** The keys of the pairs, in order, are the keys of the map without repetition. */
  lemma KeysOfMap(q: seq<Link>, keys: seq<Key>)
    requires DistinctKeys(q) && |keys| == |q| && forall i | 0 <= i < |q| :: keys[i] == q[i].key
    ensures forall k :: k in keys <==> k in MapOf(q)
    ensures Distinct(keys) && |MapOf(q)| == |keys|
  {
    var m := MapOf(q);
    forall k | k in keys ensures k in m {
      var i :| 0 <= i < |keys| && keys[i] == k;
      assert q[i] in q;
    }
    forall k | k in m ensures k in keys {
      var x :| x in q && x.key == k;
      var i :| 0 <= i < |q| && q[i] == x;
      assert keys[i] == k;
    }
    assert m.Keys == set k | k in keys;
    DistinctCount(keys);
  }

  lemma {:induction false} DistinctCount(keys: seq<Key>)
    requires Distinct(keys)
    ensures |set k | k in keys| == |keys|
  {
    if keys != [] {
      var n := |keys| - 1;
      DistinctCount(keys[..n]);
      assert (set k | k in keys) == (set k | k in keys[..n]) + {keys[n]};
    }
  }

  // ----- the table -----

  const PRIMES: seq<nat> := [
    5, 13, 23, 53, 97, 193, 389, 769, 1543, 3079, 6151, 12289, 24593,
    49157, 98317, 196613, 393241, 786433, 1572869, 3145739, 6291469,
    12582917, 25165843, 50331653, 100663319, 201326611, 402653189,
    805306457, 1610612741
  ]

  const NUM_PRIMES: nat := 29

  function Prime(i: nat): (n: nat)
    requires i < NUM_PRIMES
    ensures n > 0
  {
    PRIMES[i]
  }

  /** A rehash always makes room for at least one more pair. */
  lemma PrimesGrow(i: nat)
    requires i + 1 < NUM_PRIMES
    ensures Prime(i) < Prime(i + 1)
  {
  }

  class HashTable {
    var size: nat
    /** Index into PRIMES of the bucket count. */
    var numBuckets: nat
    var first: array<Link>
    var last: array<Link>
    const list: Link
    const hashKey: Key -> word
    /** The pairs, in the order of the ring. */
    ghost var ring: seq<Link>

    /** The ring and the buckets fit together. */
    ghost predicate Shape()
      reads this, list, ring, first, last
    {
      numBuckets < NUM_PRIMES && first != last
      && first.Length == Prime(numBuckets) && last.Length == Prime(numBuckets)
      && Linked(list, ring)
      && forall b | 0 <= b < first.Length :: Bucket(list, ring, first.Length, b, first[b], last[b])
    }

    ghost predicate Valid()
      reads this, list, ring, first, last
    {
      Shape() && KeysMatch(ring) && size == |ring| && size <= Prime(numBuckets)
    }

    /** Every pair carries the hash of its key, and no key occurs twice. */
    ghost predicate KeysMatch(ring: seq<Link>) {
      DistinctKeys(ring) && forall x | x in ring :: x.hash == hashKey(x.key)
    }

    /** The abstract value: the map the table stands for. */
    ghost function Contents(): map<Key, Pointer>
      requires KeysMatch(ring)
      reads this, ring
    {
      MapOf(ring)
    }

    /** hashtable_init. The loop over the new buckets is the initializer of the two arrays. */
    constructor (hashKey: Key -> word)
      ensures Valid() && Contents() == map[] && this.hashKey == hashKey
      ensures fresh(list) && fresh(first) && fresh(last)
    {
      this.hashKey := hashKey;
      size, numBuckets := 0, 0;
      var head := new Link.Head();
      list := head;
      first := new Link[Prime(0)](_ => head);
      last := new Link[Prime(0)](_ => head);
      ring := [];
      new;
      EmptyBuckets();
    }

    /** With no pairs, buckets that all point at the head are right. */
    lemma EmptyBuckets()
      requires numBuckets < NUM_PRIMES && first.Length == last.Length && first.Length > 0 && ring == []
      requires forall b | 0 <= b < first.Length :: first[b] == list && last[b] == list
      ensures forall b | 0 <= b < first.Length :: Bucket(list, ring, first.Length, b, first[b], last[b])
    {
      forall b | 0 <= b < first.Length
        ensures Bucket(list, ring, first.Length, b, first[b], last[b])
      {
        assert BucketAt(list, ring, first.Length, b, first[b], last[b], 0, 0);
      }
    }

    /** insert_to_bucket: in front of its bucket, or at the end of the ring when the bucket is empty. */
    method InsertToBucket(index: nat, node: Link) returns (ghost p: nat)
      requires Shape() && index < first.Length && InBucket(node, first.Length, index)
      requires node != list && node !in ring
      modifies this`ring, first, last, list, ring, node
      ensures p <= |old(ring)| && ring == InsertAt(old(ring), p, node)
      ensures Shape()
      ensures forall x | x in ring + [list] :: x.value == old(x.value)
    {
      hide Bucket, BucketAt, Linked, InsertAt, Segment, InBucket;
      if first[index] == list && first[index] == last[index] {
        p := |ring|;
        HeadIsOutside();
        InsertIntoEmpty(list, ring, node, first.Length, index);
        OthersInsert(index, p, node);
        ListInsert(list, node, list, ring, p);
        first[index], last[index] := node, node;
      } else {
        ghost var hi;
        p, hi := OpenBucket(index);
        InsertInFront(list, ring, p, node, first.Length, index, last[index], hi);
        OthersInsert(index, p, node);
        ListInsert(first[index], node, list, ring, p);
        first[index] := node;
      }
      InsertMembers(ring, p, node);
      ring := InsertAt(ring, p, node);
    }

    lemma HeadIsOutside()
      requires Shape()
      ensures list !in ring
    {
    }

    /** A bucket whose pointers are not both the head has a first pair. */
    lemma OpenBucket(index: nat) returns (lo: nat, hi: nat)
      requires Shape() && index < first.Length
      requires !(first[index] == list && first[index] == last[index])
      ensures lo < hi <= |ring| && first[index] == ring[lo] && InBucket(ring[lo], first.Length, index)
      ensures BucketAt(list, ring, first.Length, index, ring[lo], last[index], lo, hi)
    {
      hide InBucket, Linked;
      lo, hi :| BucketAt(list, ring, first.Length, index, first[index], last[index], lo, hi);
    }

    /** Insertion into bucket `index` leaves every other bucket as it was. */
    lemma OthersInsert(index: nat, p: nat, node: Link)
      requires Shape() && index < first.Length && InBucket(node, first.Length, index)
      requires p <= |ring| && (p == |ring| || InBucket(ring[p], first.Length, index))
      ensures forall b | 0 <= b < first.Length && b != index ::
                Bucket(list, InsertAt(ring, p, node), first.Length, b, first[b], last[b])
    {
      forall b | 0 <= b < first.Length && b != index
        ensures Bucket(list, InsertAt(ring, p, node), first.Length, b, first[b], last[b])
      {
        InsertElsewhere(list, ring, p, node, first.Length, b, first[b], last[b]);
      }
    }

    // ----- the abstract map -----

    /** hashtable_find_pair: walks the segment of the bucket. */
    method FindPair(index: nat, key: Key, hash: word) returns (pair: Link?, ghost p: nat)
      requires Valid() && hash == hashKey(key) && index == hash % Prime(numBuckets)
      ensures pair == null <==> key !in Contents()
      ensures index < first.Length
      ensures pair != null ==> p < |ring| && pair == ring[p] && pair.key == key && InBucket(pair, first.Length, index)
    {
      ghost var nb := first.Length;
      p := 0;
      if first[index] == list && first[index] == last[index] {
        EmptyBucketMisses(index, key);
        return null, p;
      }
      ghost var lo: nat, hi: nat :| BucketAt(list, ring, nb, index, first[index], last[index], lo, hi);
      var l := first[index];
      p := lo;
      while true
        invariant lo <= p < hi && l == ring[p]
        invariant forall i | lo <= i < p :: ring[i].key != key
        decreases hi - p
      {
        if l.hash == hash && l.key == key {
          return l, p;
        }
        if l == last[index] {
          break;
        }
        assert Circle(list, ring)[p + 1].next == Circle(list, ring)[p + 2];
        l := l.next;
        p := p + 1;
      }
      assert forall x | x in ring && x.key == key :: InBucket(x, nb, index);
      return null, p;
    }

    lemma EmptyBucketMisses(index: nat, key: Key)
      requires Valid() && index == hashKey(key) % Prime(numBuckets)
      requires first[index] == list && last[index] == list
      ensures key !in Contents()
    {
      ghost var lo: nat, hi: nat :| BucketAt(list, ring, first.Length, index, list, list, lo, hi);
      forall x | x in ring ensures x.key != key {
        assert !InBucket(x, first.Length, index);
      }
    }

    /** hashtable_get. */
    method Get(key: Key) returns (found: bool, value: Pointer)
      requires Valid()
      ensures found <==> key in Contents()
      ensures found ==> value == Contents()[key]
    {
      var hash := hashKey(key);
      var pair, p := FindPair(hash % Prime(numBuckets), key, hash);
      if pair == null {
        return false, 0;
      }
      return true, pair.value;
    }

    /** hashtable_do_del: 0 on success, -1 if the key is not there. */
    method Del(key: Key) returns (rc: int)
      requires Valid()
      modifies this`ring, this`size, first, last, list, ring
      ensures Valid()
      ensures rc == if key in old(Contents()) then 0 else -1
      ensures Contents() == old(Contents()) - {key}
      ensures size == if key in old(Contents()) then old(size) - 1 else old(size)
      ensures forall x | x in ring :: x in old(ring)
    {
      hide Bucket, Linked, MapOf, DistinctKeys, RemoveAt, InBucket, Prime;
      var hash := hashKey(key);
      var index := hash % Prime(numBuckets);
      var pair, p := FindPair(index, key, hash);
      if pair == null {
        assert Contents() - {key} == Contents();
        return -1;
      }
      RemoveKeepsKeys(ring, p);
      RemovedMap(ring, p);
      Unlink(index, p, pair);
      SameMap(ring);
      size := size - 1;
      return 0;
    }

    /** Takes ring[p] out of its bucket and out of the ring. */
    method Unlink(index: nat, ghost p: nat, pair: Link)
      requires Shape() && index < first.Length && p < |ring| && pair == ring[p] && InBucket(pair, first.Length, index)
      modifies this`ring, first, last, list, ring
      ensures Shape() && ring == RemoveAt(old(ring), p)
      ensures forall x | x in ring :: x.value == old(x.value)
    {
      Forget(index, p, pair);
      ListRemove(pair, list, ring, p);
      ghost var r := ring;
      ring := RemoveAt(ring, p);
      assert forall x | x in ring :: x in r;
    }

    /** The bucket that loses ring[p] moves its pointers off it, before the ring does. */
    method Forget(index: nat, ghost p: nat, pair: Link)
      requires Shape() && index < first.Length && p < |ring| && pair == ring[p] && InBucket(pair, first.Length, index)
      modifies first, last
      ensures forall b | 0 <= b < first.Length ::
                Bucket(list, RemoveAt(ring, p), first.Length, b, first[b], last[b])
    {
      RemoveFrom(list, ring, p, first.Length, index, first[index], last[index]);
      OthersRemove(index, p);
      assert Circle(list, ring)[p + 1].next == Circle(list, ring)[p + 2];
      assert Circle(list, ring)[p].next == Circle(list, ring)[p + 1];
      if pair == first[index] && pair == last[index] {
        first[index], last[index] := list, list;
      } else if pair == first[index] {
        first[index] := pair.next;
      } else if pair == last[index] {
        last[index] := pair.prev;
      }
    }

    lemma OthersRemove(index: nat, p: nat)
      requires Shape() && index < first.Length && p < |ring| && InBucket(ring[p], first.Length, index)
      ensures forall b | 0 <= b < first.Length && b != index ::
                Bucket(list, RemoveAt(ring, p), first.Length, b, first[b], last[b])
    {
      forall b | 0 <= b < first.Length && b != index
        ensures Bucket(list, RemoveAt(ring, p), first.Length, b, first[b], last[b])
      {
        RemoveElsewhere(list, ring, p, first.Length, b, first[b], last[b]);
      }
    }

    /** hashtable_do_rehash: more buckets, and every pair put back through them. Needs another prime to go to. */
    method Rehash()
      requires Valid() && numBuckets + 1 < NUM_PRIMES
      modifies this`ring, this`numBuckets, this`first, this`last, list, ring
      ensures Valid() && Contents() == old(Contents())
      ensures fresh(first) && fresh(last) && numBuckets == old(numBuckets) + 1
      ensures multiset(ring) == multiset(old(ring)) && size < Prime(numBuckets)
    {
      hide Shape, MapOf, DistinctKeys, Prime, Distinct;
      ghost var r := ring;
      RingIsDistinct();
      var l := StartRehash();
      Relink(l, r);
      RingIsDistinct();
      Rearranged(r, ring);
      SameMap(r);
    }

    lemma RingIsDistinct()
      requires Shape()
      ensures Distinct(ring) && list !in ring
    {
    }

    /** Everything before the loop: the new buckets, and the head closed on itself. */
    method StartRehash() returns (l: Link)
      requires Shape() && numBuckets + 1 < NUM_PRIMES
      modifies this`ring, this`numBuckets, this`first, this`last, list
      ensures Shape() && ring == [] && fresh(first) && fresh(last)
      ensures numBuckets == old(numBuckets) + 1 && Prime(old(numBuckets)) < Prime(numBuckets)
      ensures l == At(list, old(ring), 0) && Chain(list, old(ring), 0)
    {
      hide Bucket;
      PrimesGrow(numBuckets);
      RingChain();
      numBuckets := numBuckets + 1;
      var head := list;
      first := new Link[Prime(numBuckets)](_ => head);
      last := new Link[Prime(numBuckets)](_ => head);
      l := list.next;
      list.next, list.prev := list, list;
      ring := [];
      ResetShape();
    }

    lemma ResetShape()
      requires numBuckets < NUM_PRIMES && first != last && ring == []
      requires first.Length == Prime(numBuckets) && last.Length == Prime(numBuckets)
      requires list.next == list && list.prev == list
      requires forall b | 0 <= b < first.Length :: first[b] == list && last[b] == list
      ensures Shape()
    {
      EmptyRing(list);
      EmptyBuckets();
    }

    lemma RingChain()
      requires Shape()
      ensures Chain(list, ring, 0) && list.next == At(list, ring, 0)
    {
      var all := Circle(list, ring);
      assert all[0].next == all[1];
      forall i | 0 <= i < |ring| ensures ring[i].next == At(list, ring, i + 1) {
        assert all[i + 1].next == all[i + 2];
      }
    }

    /** The loop of hashtable_do_rehash: `l` walks the links left over from the old ring `r`. */
    method Relink(firstLink: Link, ghost r: seq<Link>)
      requires Shape() && ring == [] && Distinct(r) && list !in r
      requires Chain(list, r, 0) && firstLink == At(list, r, 0)
      modifies this`ring, first, last, list, r
      ensures Shape() && multiset(ring) == multiset(r)
      ensures forall x | x in r :: x.value == old(x.value)
    {
      hide Shape;
      var l := firstLink;
      ghost var k := 0;
      while l != list
        invariant k <= |r| && l == At(list, r, k)
        invariant Shape() && multiset(ring) == multiset(r[..k]) && Chain(list, r, k)
        invariant forall x | x in r :: x.value == old(x.value)
        decreases |r| - k
      {
        var next := l.next;
        MoveBack(l, r, k);
        l := next;
        k := k + 1;
      }
      assert r[..k] == r;
    }

    /** One turn of that loop. */
    method MoveBack(l: Link, ghost r: seq<Link>, ghost k: nat)
      requires Shape() && Distinct(r) && list !in r && k < |r| && l == r[k]
      requires multiset(ring) == multiset(r[..k]) && Chain(list, r, k)
      modifies this`ring, first, last, list, r
      ensures Shape() && multiset(ring) == multiset(r[..k + 1]) && Chain(list, r, k + 1)
      ensures forall x | x in r :: x.value == old(x.value)
    {
      hide Bucket, Linked, InsertAt;
      NotYetMoved(r, k, ring);
      assert l in r;
      ghost var q := ring;
      var index := l.hash % Prime(numBuckets);
      ghost var p := InsertToBucket(index, l);
      InsertMultiset(q, p, l);
      InsertMembers(q, p, l);
      assert r[..k + 1] == r[..k] + [r[k]];
    }

    /** Room for one more pair: below the bucket count, or with another prime left to grow to. */
    ghost predicate CanGrow()
      requires numBuckets < NUM_PRIMES
      reads this
    {
      size < Prime(numBuckets) || numBuckets + 1 < NUM_PRIMES
    }

    /** hashtable_set. */
    method Set(key: Key, value: Pointer)
      requires Valid() && CanGrow()
      modifies this, first, last, list, ring
      ensures Valid() && Contents() == old(Contents())[key := value]
      ensures size == if key in old(Contents()) then old(size) else old(size) + 1
      ensures first == old(first) || fresh(first)
      ensures last == old(last) || fresh(last)
      ensures forall x | x in ring :: x in old(ring) || fresh(x)
    {
      hide Bucket, Linked, MapOf, DistinctKeys;
      ghost var r := ring;
      if size >= Prime(numBuckets) {
        Rehash();
        SameMembers(r, ring);
      }
      var hash := hashKey(key);
      var index := hash % Prime(numBuckets);
      var pair, p := FindPair(index, key, hash);
      if pair != null {
        ReplaceValue(pair, p, value);
      } else {
        AddPair(index, key, value, hash);
      }
    }

    /** The branch of hashtable_set that keeps the pair, and hashtable_iter_set. */
    method ReplaceValue(pair: Link, ghost p: nat, value: Pointer)
      requires Valid() && p < |ring| && pair == ring[p]
      modifies pair`value
      ensures Valid() && Contents() == old(Contents())[pair.key := value]
    {
      hide Bucket;
      ghost var m := Contents();
      pair.value := value;
      UpdatedMap(ring, p, m);
    }

    /** The branch of hashtable_set that allocates a pair. */
    method AddPair(index: nat, key: Key, value: Pointer, hash: word)
      requires Valid() && index < first.Length && size < Prime(numBuckets)
      requires hash == hashKey(key) && hash % Prime(numBuckets) == index && key !in Contents()
      modifies this`ring, this`size, first, last, list, ring
      ensures Valid() && Contents() == old(Contents())[key := value] && size == old(size) + 1
      ensures forall x | x in ring :: x in old(ring) || fresh(x)
    {
      hide Bucket, Linked, MapOf, DistinctKeys, InBucket, InsertAt;
      var pair := new Link.Pair(key, value, hash);
      ghost var q := ring;
      KeyIsNew(key);
      PairBucket(pair, index);
      ghost var p := InsertToBucket(index, pair);
      InsertMembers(q, p, pair);
      InsertKeepsKeys(q, p, pair);
      InsertedMap(q, p, pair);
      SameMap(q);
      size := size + 1;
    }

    lemma KeyIsNew(key: Key)
      requires Valid() && key !in Contents()
      ensures forall y | y in ring :: y.key != key
    {
    }

    lemma PairBucket(x: Link, index: nat)
      requires Shape() && x.hash % Prime(numBuckets) == index
      ensures first.Length > 0 && InBucket(x, first.Length, index)
    {
    }

    // ----- walking the ring -----

    /** hashtable_iter: the first pair, or null. */
    method Iter() returns (iter: Link?)
      requires Valid()
      ensures iter == if |ring| == 0 then null else ring[0]
    {
      RingChain();
      iter := if list.next == list then null else list.next;
    }

    /** hashtable_iter_next: the pair after the `p`-th, or null. */
    method IterNext(iter: Link, ghost p: nat) returns (next: Link?)
      requires Valid() && p < |ring| && iter == ring[p]
      ensures next == if p + 1 == |ring| then null else ring[p + 1]
    {
      RingChain();
      next := if iter.next == list then null else iter.next;
    }

    /** hashtable_iter_at. */
    method IterAt(key: Key) returns (iter: Link?, ghost p: nat)
      requires Valid()
      ensures iter == null <==> key !in Contents()
      ensures iter != null ==> p < |ring| && iter == ring[p] && iter.key == key
    {
      var hash := hashKey(key);
      iter, p := FindPair(hash % Prime(numBuckets), key, hash);
    }

    /** hashtable_iter_set: the value of the pair an iterator stands on. */
    method IterSet(iter: Link, ghost p: nat, value: Pointer)
      requires Valid() && p < |ring| && iter == ring[p]
      modifies iter`value
      ensures Valid() && Contents() == old(Contents())[iter.key := value]
    {
      ReplaceValue(iter, p, value);
    }

    lemma SizeIsCount()
      requires Valid()
      ensures size == |Contents()|
    {
      var q := ring;
      KeysOfMap(q, seq(|q|, i requires 0 <= i < |q| reads q => q[i].key));
    }

    /** The loop of do_dump that collects the keys of an object: every key of the map, each once,
        and as many as the table counts, which is what the assertion after the loop checks. */
    method CollectKeys() returns (keys: seq<Key>)
      requires Valid()
      ensures |keys| == size && |keys| == |Contents()|
      ensures forall k :: k in keys <==> k in Contents()
      ensures Distinct(keys)
    {
      keys := [];
      var iter := Iter();
      while iter != null
        invariant |keys| <= |ring| && forall i | 0 <= i < |keys| :: keys[i] == ring[i].key
        invariant iter == if |keys| == |ring| then null else ring[|keys|]
        decreases |ring| - |keys|
      {
        ghost var p := |keys|;
        keys := keys + [iter.key];
        iter := IterNext(iter, p);
      }
      KeysOfMap(ring, keys);
    }

    /** hashtable_do_clear: the pairs handed to free, in order. */
    method DoClear() returns (freed: seq<Link>)
      requires Valid()
      ensures freed == ring
    {
      freed := [];
      RingChain();
      var l := list.next;
      while l != list
        invariant |freed| <= |ring| && freed == ring[..|freed|]
        invariant l == At(list, ring, |freed|)
        decreases |ring| - |freed|
      {
        var next := l.next;
        freed := freed + [l];
        l := next;
      }
    }

    /** hashtable_clear. */
    method Clear() returns (freed: seq<Link>)
      requires Valid()
      modifies this`ring, this`size, first, last, list
      ensures Valid() && Contents() == map[] && freed == old(ring) && size == 0
    {
      hide Linked, Bucket;
      freed := DoClear();
      for i := 0 to Prime(numBuckets)
        modifies first, last
        invariant forall b | 0 <= b < i :: first[b] == list && last[b] == list
      {
        first[i], last[i] := list, list;
      }
      list.next, list.prev := list, list;
      ring := [];
      size := 0;
      ResetShape();
    }
  }

  // ----- whole runs -----

  datatype Op = OpSet(key: Key, value: Pointer) | OpGet(key: Key) | OpDel(key: Key) | OpClear

  /** What a call reports: hashtable_get a pointer or NULL, hashtable_del 0 or -1. */
  datatype Answer = Done | Found(value: Pointer) | NotFound | Code(rc: int)

  function ApplyOp(m: map<Key, Pointer>, op: Op): map<Key, Pointer> {
    match op
    case OpSet(k, v) => m[k := v]
    case OpGet(_) => m
    case OpDel(k) => m - {k}
    case OpClear => map[]
  }

  function AnswerOp(m: map<Key, Pointer>, op: Op): Answer {
    match op
    case OpSet(_, _) => Done
    case OpGet(k) => if k in m then Found(m[k]) else NotFound
    case OpDel(k) => Code(if k in m then 0 else -1)
    case OpClear => Done
  }

  /** The map after the first operations of a run, and the answers it would give. */
  function RunMap(m: map<Key, Pointer>, ops: seq<Op>): map<Key, Pointer> {
    if ops == [] then m else ApplyOp(RunMap(m, ops[..|ops| - 1]), ops[|ops| - 1])
  }

  function RunAnswers(m: map<Key, Pointer>, ops: seq<Op>): (a: seq<Answer>)
    ensures |a| == |ops|
  {
    if ops == [] then []
    else RunAnswers(m, ops[..|ops| - 1]) + [AnswerOp(RunMap(m, ops[..|ops| - 1]), ops[|ops| - 1])]
  }

  /** One call on the table. */
  method Perform(t: HashTable, op: Op) returns (answer: Answer)
    requires t.Valid() && t.size < Prime(NUM_PRIMES - 1)
    modifies t, t.first, t.last, t.list, t.ring
    ensures t.Valid() && t.Contents() == ApplyOp(old(t.Contents()), op)
    ensures answer == AnswerOp(old(t.Contents()), op)
    ensures (t.first == old(t.first) || fresh(t.first)) && (t.last == old(t.last) || fresh(t.last))
    ensures forall i | 0 <= i < |t.ring| :: t.ring[i] in old(t.ring) || fresh(t.ring[i])
  {
    hide Bucket, Linked, MapOf, DistinctKeys;
    match op
    case OpSet(k, v) =>
      t.Set(k, v);
      answer := Done;
    case OpGet(k) =>
      var found, v := t.Get(k);
      answer := if found then Found(v) else NotFound;
    case OpDel(k) =>
      var rc := t.Del(k);
      answer := Code(rc);
    case OpClear =>
      var freed := t.Clear();
      answer := Done;
  }

  /** Any sequence of calls gives the answers of a map, through every rehash on the way, as long as the
      map it would keep stays below the last of the primes. */
  method Run(t: HashTable, ops: seq<Op>) returns (answers: seq<Answer>)
    requires t.Valid() && forall i | 0 <= i < |ops| :: |RunMap(t.Contents(), ops[..i])| < Prime(NUM_PRIMES - 1)
    modifies t, t.first, t.last, t.list, t.ring
    ensures t.Valid() && t.Contents() == RunMap(old(t.Contents()), ops) && t.size == |t.Contents()|
    ensures answers == RunAnswers(old(t.Contents()), ops)
  {
    hide HashTable.Shape, MapOf, DistinctKeys, Prime, ApplyOp, AnswerOp;
    ghost var m := t.Contents();
    answers := [];
    for i := 0 to |ops|
      invariant t.Valid()
      invariant t.Contents() == RunMap(m, ops[..i]) && answers == RunAnswers(m, ops[..i])
      invariant t.first == old(t.first) || fresh(t.first)
      invariant t.last == old(t.last) || fresh(t.last)
      invariant forall j | 0 <= j < |t.ring| :: t.ring[j] in old(t.ring) || fresh(t.ring[j])
    {
      assert ops[..i + 1][..i] == ops[..i];
      t.SizeIsCount();
      var answer := Perform(t, ops[i]);
      answers := answers + [answer];
    }
    assert ops[..|ops|] == ops;
    t.SizeIsCount();
  }
}
