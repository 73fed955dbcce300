/** The cache as a list of entries, most recently used first. */
module LruSpec {
  import opened Wrappers

  datatype Entry<K, V> = Entry(key: K, value: V)

  datatype Op<K, V> = Put(key: K, value: V) | Get(key: K)

  predicate DistinctKeys<K(==), V>(list: seq<Entry<K, V>>) {
    forall i, j :: 0 <= i < j < |list| ==> list[i].key != list[j].key
  }

  function Lookup<K(==), V>(list: seq<Entry<K, V>>, key: K): Option<V> {
    if list == [] then None
    else if list[0].key == key then Some(list[0].value)
    else Lookup(list[1..], key)
  }

  function Without<K(==), V>(list: seq<Entry<K, V>>, key: K): (rest: seq<Entry<K, V>>)
    ensures |rest| <= |list|
  {
    if list == [] then []
    else if list[0].key == key then Without(list[1..], key)
    else [list[0]] + Without(list[1..], key)
  }

  function Take<A>(s: seq<A>, n: nat): seq<A> {
    if |s| <= n then s else s[..n]
  }

  /** insert: an existing key is overwritten and promoted; a new one goes to the front and
      the tail beyond the capacity is evicted. get: a hit is promoted. */
  function After<K(==), V>(capacity: nat, list: seq<Entry<K, V>>, op: Op<K, V>): seq<Entry<K, V>> {
    match op
    case Put(key, value) =>
      if Lookup(list, key).Some? then [Entry(key, value)] + Without(list, key)
      else Take([Entry(key, value)] + list, capacity)
    case Get(key) =>
      (match Lookup(list, key)
       case None => list
       case Some(value) => [Entry(key, value)] + Without(list, key))
  }

  function Cache<K(==), V>(capacity: nat, ops: seq<Op<K, V>>): seq<Entry<K, V>> {
    if ops == [] then []
    else After(capacity, Cache(capacity, ops[..|ops| - 1]), ops[|ops| - 1])
  }

  /** What a call returns: insert the value it stored, get the value it found. */
  function AnswerTo<K(==), V>(list: seq<Entry<K, V>>, op: Op<K, V>): Option<V> {
    match op
    case Put(_, value) => Some(value)
    case Get(key) => Lookup(list, key)
  }

  function Answers<K(==), V>(capacity: nat, ops: seq<Op<K, V>>): seq<Option<V>> {
    if ops == [] then []
    else
      var before := ops[..|ops| - 1];
      Answers(capacity, before) + [AnswerTo(Cache(capacity, before), ops[|ops| - 1])]
  }

  lemma OneMoreCall<K, V>(capacity: nat, ops: seq<Op<K, V>>, n: nat)
    requires n < |ops|
    ensures Cache(capacity, ops[..n + 1]) == After(capacity, Cache(capacity, ops[..n]), ops[n])
    ensures Answers(capacity, ops[..n + 1])
         == Answers(capacity, ops[..n]) + [AnswerTo(Cache(capacity, ops[..n]), ops[n])]
  {
    assert ops[..n + 1][..n] == ops[..n];
  }

  // ----- removal and lookup by position -----

  lemma {:induction false} WithoutMissing<K, V>(list: seq<Entry<K, V>>, key: K)
    requires forall i :: 0 <= i < |list| ==> list[i].key != key
    ensures Lookup(list, key).None? && Without(list, key) == list
  {
    if list != [] {
      WithoutMissing(list[1..], key);
    }
  }

  lemma {:induction false} LookupNone<K, V>(list: seq<Entry<K, V>>, key: K, i: nat)
    requires Lookup(list, key).None? && i < |list|
    ensures list[i].key != key
  {
    if i > 0 {
      LookupNone(list[1..], key, i - 1);
    }
  }

  lemma {:induction false} WithoutAt<K, V>(list: seq<Entry<K, V>>, i: nat)
    requires DistinctKeys(list) && i < |list|
    ensures Lookup(list, list[i].key) == Some(list[i].value)
    ensures Without(list, list[i].key) == list[..i] + list[i + 1..]
  {
    if i == 0 {
      WithoutMissing(list[1..], list[0].key);
    } else {
      WithoutAt(list[1..], i - 1);
      assert list[..i] == [list[0]] + list[1..][..i - 1];
    }
  }

  lemma {:induction false} LookupIndex<K, V>(list: seq<Entry<K, V>>, key: K) returns (i: nat)
    requires Lookup(list, key).Some?
    ensures i < |list| && list[i].key == key
  {
    if list[0].key == key {
      i := 0;
    } else {
      i := LookupIndex(list[1..], key);
      i := i + 1;
    }
  }

  lemma {:induction false} WithoutKeepsDistinct<K, V>(list: seq<Entry<K, V>>, key: K)
    requires DistinctKeys(list)
    ensures DistinctKeys(Without(list, key))
    ensures forall i :: 0 <= i < |Without(list, key)| ==> Without(list, key)[i].key != key
    ensures forall i :: 0 <= i < |Without(list, key)| ==> Without(list, key)[i] in list
  {
    if Lookup(list, key).Some? {
      var i := LookupIndex(list, key);
      WithoutAt(list, i);
    } else {
      forall i | 0 <= i < |list| ensures list[i].key != key { LookupNone(list, key, i); }
      WithoutMissing(list, key);
    }
  }

  lemma ConsKeepsDistinct<K, V>(entry: Entry<K, V>, list: seq<Entry<K, V>>)
    requires DistinctKeys(list) && forall i :: 0 <= i < |list| ==> list[i].key != entry.key
    ensures DistinctKeys([entry] + list)
  {
  }

  lemma AfterKeepsShape<K, V>(capacity: nat, list: seq<Entry<K, V>>, op: Op<K, V>)
    requires DistinctKeys(list) && |list| <= capacity
    ensures DistinctKeys(After(capacity, list, op)) && |After(capacity, list, op)| <= capacity
  {
    WithoutKeepsDistinct(list, op.key);
    if Lookup(list, op.key).Some? {
      var i := LookupIndex(list, op.key);
      WithoutAt(list, i);
      var entry := if op.Put? then Entry(op.key, op.value) else Entry(op.key, Lookup(list, op.key).value);
      ConsKeepsDistinct(entry, Without(list, op.key));
    } else if op.Put? {
      forall i | 0 <= i < |list| ensures list[i].key != op.key { LookupNone(list, op.key, i); }
      ConsKeepsDistinct(Entry(op.key, op.value), list);
    }
  }

  lemma {:induction false} CacheShape<K, V>(capacity: nat, ops: seq<Op<K, V>>)
    ensures DistinctKeys(Cache(capacity, ops)) && |Cache(capacity, ops)| <= capacity
  {
    if ops != [] {
      CacheShape(capacity, ops[..|ops| - 1]);
      AfterKeepsShape(capacity, Cache(capacity, ops[..|ops| - 1]), ops[|ops| - 1]);
    }
  }
}

/** A larger cache never misses where a smaller one hits. */
module LruInclusion {
  import opened LruSpec

  predicate Subsequence<A(==)>(s: seq<A>, l: seq<A>) {
    || s == []
    || (l != [] && ((s[0] == l[0] && Subsequence(s[1..], l[1..])) || Subsequence(s, l[1..])))
  }

  lemma {:induction false} SameIsSubsequence<A>(s: seq<A>)
    ensures Subsequence(s, s)
  {
    if s != [] {
      SameIsSubsequence(s[1..]);
    }
  }

  lemma {:induction false} SubsequenceLength<A>(s: seq<A>, l: seq<A>)
    requires Subsequence(s, l)
    ensures |s| <= |l| && (|s| == |l| ==> s == l)
  {
    if s != [] {
      if s[0] == l[0] && Subsequence(s[1..], l[1..]) {
        SubsequenceLength(s[1..], l[1..]);
      } else {
        SubsequenceLength(s, l[1..]);
      }
    }
  }

  lemma {:induction false} PrefixOfSubsequence<A>(s: seq<A>, l: seq<A>, n: nat)
    requires Subsequence(s, l) && n <= |s|
    ensures Subsequence(s[..n], l)
  {
    if n > 0 {
      if s[0] == l[0] && Subsequence(s[1..], l[1..]) {
        PrefixOfSubsequence(s[1..], l[1..], n - 1);
        assert s[..n][1..] == s[1..][..n - 1];
      } else {
        PrefixOfSubsequence(s, l[1..], n);
      }
    }
  }

  lemma {:induction false} DropLasts<A>(s: seq<A>, l: seq<A>)
    requires Subsequence(s, l) && s != []
    ensures Subsequence(s[..|s| - 1], l[..|l| - 1])
  {
    var s', l' := s[..|s| - 1], l[..|l| - 1];
    if s' != [] {
      SubsequenceLength(s, l);
      if s[0] == l[0] && Subsequence(s[1..], l[1..]) {
        DropLasts(s[1..], l[1..]);
        assert s'[1..] == s[1..][..|s| - 2] && l'[1..] == l[1..][..|l| - 2];
      } else {
        DropLasts(s, l[1..]);
        assert l'[1..] == l[1..][..|l| - 2];
      }
    }
  }

  lemma {:induction false} WithoutOnBoth<K, V>(s: seq<Entry<K, V>>, l: seq<Entry<K, V>>, key: K)
    requires Subsequence(s, l)
    ensures Subsequence(Without(s, key), Without(l, key))
  {
    if s != [] {
      if s[0] == l[0] && Subsequence(s[1..], l[1..]) {
        WithoutOnBoth(s[1..], l[1..], key);
      } else {
        WithoutOnBoth(s, l[1..], key);
      }
    }
  }

  lemma {:induction false} ElementOfSubsequence<A>(s: seq<A>, l: seq<A>, i: nat) returns (j: nat)
    requires Subsequence(s, l) && i < |s|
    ensures j < |l| && l[j] == s[i]
  {
    if s[0] == l[0] && Subsequence(s[1..], l[1..]) {
      if i == 0 {
        j := 0;
      } else {
        j := ElementOfSubsequence(s[1..], l[1..], i - 1);
        j := j + 1;
      }
    } else {
      j := ElementOfSubsequence(s, l[1..], i);
      j := j + 1;
    }
  }

  /** A hit in the smaller list is a hit in the larger, with the same value. */
  lemma HitIsHit<K, V>(s: seq<Entry<K, V>>, l: seq<Entry<K, V>>, key: K)
    requires Subsequence(s, l) && DistinctKeys(s) && DistinctKeys(l)
    ensures Lookup(s, key).Some? ==> Lookup(l, key) == Lookup(s, key)
  {
    if Lookup(s, key).Some? {
      var i := LookupIndex(s, key);
      WithoutAt(s, i);
      var j := ElementOfSubsequence(s, l, i);
      WithoutAt(l, j);
    }
  }

  /** The relation between a small and a large cache that every operation keeps; the last
      part says that until the small one is full, the two are the same. */
  ghost predicate Included<K, V>(c1: nat, s: seq<Entry<K, V>>, c2: nat, l: seq<Entry<K, V>>) {
    && DistinctKeys(s) && DistinctKeys(l)
    && |s| <= c1 && |l| <= c2
    && Subsequence(s, l)
    && (|s| < c1 ==> s == l)
  }

  lemma OpKeepsIncluded<K, V>(c1: nat, s: seq<Entry<K, V>>, c2: nat, l: seq<Entry<K, V>>, op: Op<K, V>)
    requires 1 <= c1 <= c2 && Included(c1, s, c2, l)
    ensures Included(c1, After(c1, s, op), c2, After(c2, l, op))
  {
    AfterKeepsShape(c1, s, op);
    AfterKeepsShape(c2, l, op);
    HitIsHit(s, l, op.key);
    WithoutOnBoth(s, l, op.key);
    var key := op.key;
    if Lookup(s, key).Some? {
      var i := LookupIndex(s, key);
      WithoutAt(s, i);
      if |s| == c1 {
        assert |After(c1, s, op)| == |s|;
      }
    } else if Lookup(l, key).Some? {
      forall i | 0 <= i < |s| ensures s[i].key != key { LookupNone(s, key, i); }
      WithoutMissing(s, key);
      assert |s| == c1;
      if op.Put? {
        PrefixOfSubsequence(s, Without(l, key), c1 - 1);
        assert ([Entry(key, op.value)] + s)[..c1] == [Entry(key, op.value)] + s[..c1 - 1];
      }
    } else if op.Put? {
      var e := Entry(key, op.value);
      if |s| == c1 {
        assert ([e] + s)[..c1] == [e] + s[..c1 - 1];
        if |l| == c2 {
          DropLasts(s, l);
          assert ([e] + l)[..c2] == [e] + l[..c2 - 1];
        } else {
          PrefixOfSubsequence(s, l, c1 - 1);
        }
      } else {
        SameIsSubsequence(After(c1, s, op));
      }
    }
  }

  lemma {:induction false} CachesAreIncluded<K, V>(c1: nat, c2: nat, ops: seq<Op<K, V>>)
    requires 1 <= c1 <= c2
    ensures Included(c1, Cache(c1, ops), c2, Cache(c2, ops))
  {
    if ops != [] {
      CachesAreIncluded(c1, c2, ops[..|ops| - 1]);
      OpKeepsIncluded(c1, Cache(c1, ops[..|ops| - 1]), c2, Cache(c2, ops[..|ops| - 1]), ops[|ops| - 1]);
    }
  }

  /** After the same operations, the recency list of the smaller cache is a subsequence of the
      larger one's, and every hit in it is a hit with the same result in the larger. */
  lemma {:induction false} Inclusion<K, V>(c1: nat, c2: nat, ops: seq<Op<K, V>>, key: K)
    requires 1 <= c1 <= c2
    ensures Subsequence(Cache(c1, ops), Cache(c2, ops))
    ensures Lookup(Cache(c1, ops), key).Some? ==> Lookup(Cache(c2, ops), key) == Lookup(Cache(c1, ops), key)
  {
    CachesAreIncluded(c1, c2, ops);
    HitIsHit(Cache(c1, ops), Cache(c2, ops), key);
  }
}

/** The cache is determined by the history of touches: every insert and every hit. */
module LruHistory {
  import opened Wrappers
  import opened LruSpec

  /** Newest first; a hit is recorded with the value it returned. */
  function Touches<K(==), V>(capacity: nat, ops: seq<Op<K, V>>): seq<Entry<K, V>> {
    if ops == [] then []
    else
      var before := ops[..|ops| - 1];
      var touched := Touches(capacity, before);
      match ops[|ops| - 1]
      case Put(key, value) => [Entry(key, value)] + touched
      case Get(key) =>
        (match Lookup(Cache(capacity, before), key)
         case None => touched
         case Some(value) => [Entry(key, value)] + touched)
  }

  /** The newest touch of each key, newest first. */
  function Newest<K(==), V>(touches: seq<Entry<K, V>>): seq<Entry<K, V>> {
    if touches == [] then [] else [touches[0]] + Without(Newest(touches[1..]), touches[0].key)
  }

  function LastPut<K(==), V>(ops: seq<Op<K, V>>, key: K): Option<V> {
    if ops == [] then None
    else
      var last := ops[|ops| - 1];
      if last.Put? && last.key == key then Some(last.value) else LastPut(ops[..|ops| - 1], key)
  }

  /** The keys touched after the newest touch of `key`. */
  function KeysSince<K(==), V>(touches: seq<Entry<K, V>>, key: K): set<K> {
    if touches == [] || touches[0].key == key then {}
    else {touches[0].key} + KeysSince(touches[1..], key)
  }

  lemma {:induction false} NewestIsDistinct<K, V>(touches: seq<Entry<K, V>>)
    ensures DistinctKeys(Newest(touches))
  {
    if touches != [] {
      NewestIsDistinct(touches[1..]);
      WithoutKeepsDistinct(Newest(touches[1..]), touches[0].key);
    }
  }

  lemma {:induction false} TakeWithout<K, V>(list: seq<Entry<K, V>>, n: nat, key: K)
    requires DistinctKeys(list)
    ensures Lookup(Take(list, n), key).None? ==> Take(Without(list, key), n) == Take(list, n)
    ensures Lookup(Take(list, n), key).Some? ==>
              n > 0 && Take(Without(list, key), n - 1) == Without(Take(list, n), key)
  {
    var head := Take(list, n);
    if Lookup(head, key).Some? {
      var i := LookupIndex(head, key);
      WithoutAt(head, i);
      WithoutAt(list, i);
      var rest := list[..i] + list[i + 1..];
      assert Take(rest, n - 1) == head[..i] + head[i + 1..];
    } else if Lookup(list, key).Some? {
      var i := LookupIndex(list, key);
      WithoutAt(list, i);
      if i < n {
        LookupNone(head, key, i);
      }
      assert (list[..i] + list[i + 1..])[..n] == list[..n];
    } else {
      forall i | 0 <= i < |list| ensures list[i].key != key { LookupNone(list, key, i); }
      WithoutMissing(list, key);
    }
  }

  /** The recency list is the first `capacity` distinct keys of the reversed history. */
  lemma {:induction false} CacheIsNewestTouches<K, V>(capacity: nat, ops: seq<Op<K, V>>)
    requires capacity >= 1
    ensures Cache(capacity, ops) == Take(Newest(Touches(capacity, ops)), capacity)
  {
    if ops != [] {
      var before, op := ops[..|ops| - 1], ops[|ops| - 1];
      CacheIsNewestTouches(capacity, before);
      var list, newest := Cache(capacity, before), Newest(Touches(capacity, before));
      NewestIsDistinct(Touches(capacity, before));
      TakeWithout(newest, capacity, op.key);
      if op.Put? || Lookup(list, op.key).Some? {
        var e := Touches(capacity, ops)[0];
        assert Touches(capacity, ops)[1..] == Touches(capacity, before);
        assert Newest(Touches(capacity, ops)) == [e] + Without(newest, op.key);
        assert Take([e] + Without(newest, op.key), capacity) == [e] + Take(Without(newest, op.key), capacity - 1);
        if Lookup(list, op.key).None? {
          assert Take(Without(newest, op.key), capacity - 1)
              == Take(Take(Without(newest, op.key), capacity), capacity - 1);
          assert Take([e] + list, capacity) == [e] + Take(list, capacity - 1);
        }
      }
    }
  }

  /** Every cached value is the one last inserted under its key. */
  lemma {:induction false} CachedValueIsLastPut<K, V>(capacity: nat, ops: seq<Op<K, V>>, key: K)
    ensures Lookup(Cache(capacity, ops), key).Some? ==>
              Lookup(Cache(capacity, ops), key) == LastPut(ops, key)
  {
    if ops != [] && Lookup(Cache(capacity, ops), key).Some? {
      var before, op := ops[..|ops| - 1], ops[|ops| - 1];
      CacheShape(capacity, ops);
      CacheShape(capacity, before);
      CachedValueIsLastPut(capacity, before, key);
      var list, list' := Cache(capacity, before), Cache(capacity, ops);
      var i := LookupIndex(list', key);
      WithoutAt(list', i);
      WithoutKeepsDistinct(list, op.key);
      if list'[i] in list {
        var j :| 0 <= j < |list| && list[j] == list'[i];
        WithoutAt(list, j);
      }
      assert list'[i] in list || i == 0;
    }
  }

  lemma {:induction false} KeysSinceWithout<K, V>(list: seq<Entry<K, V>>, other: K, key: K)
    requires other != key
    ensures KeysSince(Without(list, other), key) == KeysSince(list, key) - {other}
  {
    if list != [] {
      KeysSinceWithout(list[1..], other, key);
    }
  }

  lemma {:induction false} KeysSinceNewest<K, V>(touches: seq<Entry<K, V>>, key: K)
    ensures KeysSince(Newest(touches), key) == KeysSince(touches, key)
    ensures Lookup(Newest(touches), key) == Lookup(touches, key)
  {
    if touches != [] {
      KeysSinceNewest(touches[1..], key);
      if touches[0].key != key {
        KeysSinceWithout(Newest(touches[1..]), touches[0].key, key);
        LookupWithout(Newest(touches[1..]), touches[0].key, key);
      }
    }
  }

  lemma {:induction false} LookupWithout<K, V>(list: seq<Entry<K, V>>, other: K, key: K)
    requires other != key
    ensures Lookup(Without(list, other), key) == Lookup(list, key)
  {
    if list != [] {
      LookupWithout(list[1..], other, key);
    }
  }

  lemma {:induction false} KeysSincePosition<K, V>(list: seq<Entry<K, V>>, i: nat)
    requires DistinctKeys(list) && i < |list|
    ensures |KeysSince(list, list[i].key)| == i
    ensures forall k :: k in KeysSince(list, list[i].key) ==> exists j :: 0 <= j < i && list[j].key == k
  {
    if i > 0 {
      KeysSincePosition(list[1..], i - 1);
    }
  }

  /** A key hits exactly when it was touched and fewer than `capacity` other keys were touched since. */
  lemma HitIffFewKeysSince<K, V>(capacity: nat, ops: seq<Op<K, V>>, key: K)
    requires capacity >= 1
    ensures var touches := Touches(capacity, ops);
            Lookup(Cache(capacity, ops), key).Some? <==>
            Lookup(touches, key).Some? && |KeysSince(touches, key)| < capacity
  {
    var touches := Touches(capacity, ops);
    var newest := Newest(touches);
    CacheIsNewestTouches(capacity, ops);
    NewestIsDistinct(touches);
    KeysSinceNewest(touches, key);
    if Lookup(newest, key).Some? {
      var i := LookupIndex(newest, key);
      KeysSincePosition(newest, i);
      if i < capacity {
        WithoutAt(Take(newest, capacity), i);
      } else if Lookup(Take(newest, capacity), key).Some? {
        var j := LookupIndex(Take(newest, capacity), key);
      }
    } else if Lookup(Take(newest, capacity), key).Some? {
      var j := LookupIndex(Take(newest, capacity), key);
      LookupNone(newest, key, j);
    }
  }

  lemma {:induction false} AnswerAt<K, V>(capacity: nat, ops: seq<Op<K, V>>, n: nat)
    requires n < |ops|
    ensures |Answers(capacity, ops)| == |ops|
    ensures Answers(capacity, ops)[n] == AnswerTo(Cache(capacity, ops[..n]), ops[n])
  {
    var before := ops[..|ops| - 1];
    if before == [] {
      assert Answers(capacity, before) == [];
    } else if n < |before| {
      AnswerAt(capacity, before, n);
      assert before[..n] == ops[..n];
    } else {
      AnswerAt(capacity, before, 0);
    }
  }

  /** What a get answers, by the calls before it alone: the value last inserted under its key, if
      fewer than `capacity` other keys were touched since the key was, and nothing otherwise. */
  lemma GetAnswers<K, V>(capacity: nat, ops: seq<Op<K, V>>, n: nat)
    requires capacity >= 1 && n < |ops| && ops[n].Get?
    ensures |Answers(capacity, ops)| == |ops|
    ensures var key, before := ops[n].key, ops[..n];
            var touches := Touches(capacity, before);
            Answers(capacity, ops)[n] ==
              if Lookup(touches, key).Some? && |KeysSince(touches, key)| < capacity
              then LastPut(before, key) else None
  {
    AnswerAt(capacity, ops, n);
    HitIffFewKeysSince(capacity, ops[..n], ops[n].key);
    CachedValueIsLastPut(capacity, ops[..n], ops[n].key);
  }
}

/** The cache object: a list of nodes and a hash index from keys to nodes. A node stands
    for a list element with its address, so that an index entry is a list iterator. */
module LruCache {
  import opened Arithmetic
  import opened Wrappers
  import opened LruSpec

  class Node<K, V> {
    const key: K
    var value: V

    constructor (key: K, value: V)
      ensures this.key == key && this.value == value
    {
      this.key := key;
      this.value := value;
    }
  }

  /** The list has no node twice; the index has one entry per node, under the node's key,
      pointing to that very node, and no other entries. */
  ghost predicate LinkedNodes<K, V>(nodes: seq<Node<K, V>>, lookup: map<K, Node<K, V>>) {
    && (forall i, j :: 0 <= i < j < |nodes| ==> nodes[i] != nodes[j])
    && (forall i :: 0 <= i < |nodes| ==> nodes[i].key in lookup && lookup[nodes[i].key] == nodes[i])
    && (forall k :: k in lookup ==> lookup[k] in nodes && lookup[k].key == k)
  }

  ghost function Entries<K, V>(nodes: seq<Node<K, V>>): (list: seq<Entry<K, V>>)
    reads nodes
    ensures |list| == |nodes|
    ensures forall i :: 0 <= i < |nodes| ==> list[i] == Entry(nodes[i].key, nodes[i].value)
  {
    seq(|nodes|, i requires 0 <= i < |nodes| reads nodes => Entry(nodes[i].key, nodes[i].value))
  }

  function Spliced<A>(s: seq<A>, i: nat): (now: seq<A>)
    requires i < |s|
    ensures |now| == |s|
    ensures forall p :: 0 <= p < |s| ==> now[p] == s[if p == 0 then i else if p <= i then p - 1 else p]
  {
    [s[i]] + (s[..i] + s[i + 1..])
  }

  lemma SplicedIsLinked<K, V>(nodes: seq<Node<K, V>>, lookup: map<K, Node<K, V>>, i: nat)
    requires LinkedNodes(nodes, lookup) && i < |nodes|
    ensures LinkedNodes(Spliced(nodes, i), lookup)
  {
    var now := Spliced(nodes, i);
    forall k | k in lookup ensures lookup[k] in now {
      var j :| 0 <= j < |nodes| && nodes[j] == lookup[k];
      assert now[if j < i then j + 1 else if j == i then 0 else j] == nodes[j];
    }
    forall p, q | 0 <= p < q < |now| ensures now[p] != now[q] {
      assert now[p] == nodes[if p == 0 then i else if p <= i then p - 1 else p];
      assert now[q] == nodes[if q <= i then q - 1 else q];
    }
  }

  lemma SplicedList<K, V>(list: seq<Entry<K, V>>, i: nat)
    requires i < |list| && DistinctKeys(list)
    ensures Spliced(list, i) == [list[i]] + Without(list, list[i].key)
  {
    WithoutAt(list, i);
  }

  lemma EntriesOfSpliced<K, V>(nodes: seq<Node<K, V>>, i: nat)
    requires i < |nodes|
    ensures Entries(Spliced(nodes, i)) == Spliced(Entries(nodes), i)
  {
    var now, list := Entries(Spliced(nodes, i)), Spliced(Entries(nodes), i);
    forall p | 0 <= p < |nodes| ensures now[p] == list[p] {
      assert Spliced(nodes, i)[p] == nodes[if p == 0 then i else if p <= i then p - 1 else p];
    }
  }

  lemma EntriesOfPrefix<K, V>(nodes: seq<Node<K, V>>, n: nat)
    requires n <= |nodes|
    ensures Entries(nodes[..n]) == Entries(nodes)[..n]
  {
    var now, list := Entries(nodes[..n]), Entries(nodes)[..n];
    forall p | 0 <= p < n ensures now[p] == list[p] {
      assert nodes[..n][p] == nodes[p];
    }
  }

  lemma EntriesOfCons<K, V>(node: Node<K, V>, nodes: seq<Node<K, V>>)
    ensures Entries([node] + nodes) == [Entry(node.key, node.value)] + Entries(nodes)
  {
    var now, list := Entries([node] + nodes), [Entry(node.key, node.value)] + Entries(nodes);
    forall p | 0 <= p < |now| ensures now[p] == list[p] {
      assert ([node] + nodes)[p] == if p == 0 then node else nodes[p - 1];
    }
  }

  lemma LinkedCons<K, V>(node: Node<K, V>, nodes: seq<Node<K, V>>, lookup: map<K, Node<K, V>>)
    requires LinkedNodes(nodes, lookup) && node.key !in lookup
    ensures LinkedNodes([node] + nodes, lookup[node.key := node])
  {
    var now, lookup' := [node] + nodes, lookup[node.key := node];
    forall k | k in lookup' ensures lookup'[k] in now {
      if k != node.key {
        var i :| 0 <= i < |nodes| && nodes[i] == lookup[k];
        assert now[i + 1] == nodes[i];
      } else {
        assert now[0] == node;
      }
    }
  }

  lemma LinkedWithoutLast<K, V>(nodes: seq<Node<K, V>>, lookup: map<K, Node<K, V>>)
    requires LinkedNodes(nodes, lookup) && nodes != []
    ensures LinkedNodes(nodes[..|nodes| - 1], lookup - {nodes[|nodes| - 1].key})
  {
    var last := |nodes| - 1;
    var now, lookup' := nodes[..last], lookup - {nodes[last].key};
    forall k | k in lookup' ensures lookup'[k] in now {
      var i :| 0 <= i < |nodes| && nodes[i] == lookup[k];
      assert now[i] == nodes[i];
    }
  }

  lemma IndexAgreesWithList<K, V>(nodes: seq<Node<K, V>>, lookup: map<K, Node<K, V>>, key: K)
    requires LinkedNodes(nodes, lookup)
    ensures DistinctKeys(Entries(nodes))
    ensures key in lookup <==> Lookup(Entries(nodes), key).Some?
    ensures key in lookup ==> Lookup(Entries(nodes), key) == Some(lookup[key].value)
  {
    if key in lookup {
      var i :| 0 <= i < |nodes| && nodes[i] == lookup[key];
      WithoutAt(Entries(nodes), i);
    } else {
      WithoutMissing(Entries(nodes), key);
    }
  }

  lemma LinkedWithoutFirst<K, V>(nodes: seq<Node<K, V>>, lookup: map<K, Node<K, V>>)
    requires LinkedNodes(nodes, lookup) && nodes != []
    ensures nodes[0].key in lookup && LinkedNodes(nodes[1..], lookup - {nodes[0].key})
  {
    var rest, index := nodes[1..], lookup - {nodes[0].key};
    forall k | k in index ensures index[k] in rest {
      var i :| 0 <= i < |nodes| && nodes[i] == lookup[k];
      assert rest[i - 1] == nodes[i];
    }
  }

  /** One index entry per list node. */
  lemma {:induction false} IndexSize<K, V>(nodes: seq<Node<K, V>>, lookup: map<K, Node<K, V>>)
    requires LinkedNodes(nodes, lookup)
    ensures |lookup| == |nodes|
  {
    if nodes == [] {
      assert lookup.Keys == {};
    } else {
      LinkedWithoutFirst(nodes, lookup);
      var rest := lookup - {nodes[0].key};
      IndexSize(nodes[1..], rest);
      assert lookup.Keys == rest.Keys + {nodes[0].key};
    }
  }

  /** Overwriting one value leaves the other entries as they are. */
  lemma OverwrittenList<K, V>(list: seq<Entry<K, V>>, i: nat, value: V)
    requires i < |list| && DistinctKeys(list)
    ensures var now := list[i := Entry(list[i].key, value)];
            DistinctKeys(now) && Without(now, list[i].key) == Without(list, list[i].key)
  {
    var now := list[i := Entry(list[i].key, value)];
    WithoutAt(list, i);
    WithoutAt(now, i);
    assert now[..i] == list[..i] && now[i + 1..] == list[i + 1..];
  }

  class LRUCache<K(==), V> {
    const capacity: nat
    var elements: seq<Node<K, V>>
    var lookup: map<K, Node<K, V>>

    ghost predicate Linked()
      reads this
    {
      LinkedNodes(elements, lookup)
    }

    ghost predicate Valid()
      reads this
    {
      Linked() && |elements| <= capacity
    }

    ghost function Contents(): (list: seq<Entry<K, V>>)
      reads this, elements
    {
      Entries(elements)
    }

    constructor (capacity: nat)
      ensures Valid() && this.capacity == capacity && Contents() == []
    {
      this.capacity := capacity;
      elements, lookup := [], map[];
    }

    /** The node comes first, and the others follow in their old order. */
    static ghost predicate IsPromoted(now: seq<Node<K, V>>, was: seq<Node<K, V>>, node: Node<K, V>) {
      exists i :: 0 <= i < |was| && was[i] == node && now == [node] + (was[..i] + was[i + 1..])
    }

    /** Splices the node to the front; every iterator stays valid. */
    method PromoteElement(node: Node<K, V>)
      requires Linked() && node in elements
      modifies this`elements
      ensures Linked() && |elements| == old(|elements|) && elements[0] == node
      ensures Contents() == [Entry(node.key, node.value)] + Without(old(Contents()), node.key)
      ensures IsPromoted(elements, old(elements), node)
    {
      var i :| 0 <= i < |elements| && elements[i] == node;
      IndexAgreesWithList(elements, lookup, node.key);
      SplicedIsLinked(elements, lookup, i);
      SplicedList(Contents(), i);
      EntriesOfSpliced(elements, i);
      elements := Spliced(elements, i);
    }

    /** One pass of the eviction loop. */
    method EvictLast()
      requires Linked() && elements != []
      modifies this`elements, this`lookup
      ensures Linked() && elements == old(elements)[..old(|elements|) - 1]
      ensures SubIndex(lookup, old(lookup))
    {
      LinkedWithoutLast(elements, lookup);
      var last := |elements| - 1;
      lookup := lookup - {elements[last].key};
      elements := elements[..last];
    }

    /** Every entry left in the index is the one that was there. */
    static ghost predicate SubIndex(now: map<K, Node<K, V>>, was: map<K, Node<K, V>>) {
      forall k :: k in now ==> k in was && now[k] == was[k]
    }

    method ShrinkToFit()
      requires Linked() && capacity >= 1
      modifies this`elements, this`lookup
      ensures Valid()
      ensures elements == Take(old(elements), capacity)
      ensures Contents() == Take(old(Contents()), capacity)
      ensures SubIndex(lookup, old(lookup))
    {
      ghost var all := elements;
      while |elements| > capacity
        invariant Linked() && SubIndex(lookup, old(lookup))
        invariant Min(|all|, capacity) <= |elements| <= |all|
        invariant elements == all[..|elements|]
      {
        EvictLast();
      }
      EntriesOfPrefix(all, |elements|);
    }

    /** A new key: a node at the front and an index entry that points to it. */
    method EmplaceFront(key: K, value: V) returns (node: Node<K, V>)
      requires Linked() && key !in lookup
      modifies this`elements, this`lookup
      ensures Linked() && fresh(node) && node.key == key && node.value == value
      ensures elements == [node] + old(elements) && lookup == old(lookup)[key := node]
      ensures Contents() == [Entry(key, value)] + old(Contents())
    {
      node := new Node(key, value);
      LinkedCons(node, elements, lookup);
      EntriesOfCons(node, elements);
      elements := [node] + elements;
      lookup := lookup[key := node];
    }

    /** An existing key: the value is overwritten through the iterator. */
    method Overwrite(node: Node<K, V>, value: V)
      requires Linked() && node in elements
      modifies node`value
      ensures node.value == value && |Contents()| == old(|Contents()|)
      ensures DistinctKeys(Contents())
      ensures Without(Contents(), node.key) == Without(old(Contents()), node.key)
    {
      ghost var i :| 0 <= i < |elements| && elements[i] == node;
      IndexAgreesWithList(elements, lookup, node.key);
      node.value := value;
      OverwrittenList(old(Contents()), i, value);
      assert Contents() == old(Contents())[i := Entry(node.key, value)];
    }

    /** Returns the node whose value the original hands out by reference. */
    method Insert(key: K, value: V) returns (node: Node<K, V>)
      requires Valid() && capacity >= 1
      modifies this, elements
      ensures Valid()
      ensures Contents() == After(capacity, old(Contents()), Put(key, value))
      ensures elements[0] == node && node.key == key && node.value == value
      ensures forall k :: k in old(lookup) && k in lookup ==> lookup[k] == old(lookup)[k]
      ensures key in old(lookup) ==> node == old(lookup)[key] && lookup == old(lookup)
                                     && IsPromoted(elements, old(elements), node)
      ensures key !in old(lookup) ==> fresh(node)
                                      && elements == Take([node] + old(elements), capacity)
      ensures forall e :: e in elements ==> e == node || e in old(elements)
    {
      IndexAgreesWithList(elements, lookup, key);
      if key !in lookup {
        node := EmplaceFront(key, value);
        ShrinkToFit();
        return;
      }
      node := lookup[key];
      Overwrite(node, value);
      PromoteElement(node);
    }

    method Get(key: K) returns (result: Option<V>)
      requires Valid()
      modifies this`elements
      ensures Valid()
      ensures result == Lookup(old(Contents()), key)
      ensures Contents() == LruSpec.After(capacity, old(Contents()), LruSpec.Get(key))
      ensures lookup == old(lookup)
      ensures result == if key in lookup then Some(lookup[key].value) else None
      ensures if key in lookup then IsPromoted(elements, old(elements), lookup[key]) else elements == old(elements)
    {
      IndexAgreesWithList(elements, lookup, key);
      if key !in lookup {
        return None;
      }
      var node := lookup[key];
      PromoteElement(node);
      result := Some(node.value);
    }
  }

  method Ask<K(==), V>(cache: LRUCache<K, V>, op: Op<K, V>) returns (answer: Option<V>)
    requires cache.Valid() && cache.capacity >= 1
    modifies cache, cache.elements
    ensures cache.Valid() && answer == AnswerTo(old(cache.Contents()), op)
    ensures cache.Contents() == After(cache.capacity, old(cache.Contents()), op)
    ensures forall e :: e in cache.elements ==> e in old(cache.elements) || fresh(e)
  {
    match op
    case Put(key, value) =>
      var node := cache.Insert(key, value);
      answer := Some(node.value);
    case Get(key) =>
      answer := cache.Get(key);
  }

  /** Any sequence of calls on a new cache: every answer is the specification's for the calls
      before it, and list and index end up as the specification says. */
  method RunCalls<K(==), V>(capacity: nat, ops: seq<Op<K, V>>) returns (cache: LRUCache<K, V>, answers: seq<Option<V>>)
    requires capacity >= 1
    ensures fresh(cache) && cache.Valid() && cache.capacity == capacity && cache.Contents() == Cache(capacity, ops)
    ensures answers == Answers(capacity, ops)
  {
    cache := new LRUCache<K, V>(capacity);
    answers := [];
    for n := 0 to |ops|
      invariant fresh(cache) && cache.Valid() && cache.capacity == capacity
      invariant forall e :: e in cache.elements ==> fresh(e)
      invariant cache.Contents() == Cache(capacity, ops[..n]) && answers == Answers(capacity, ops[..n])
    {
      OneMoreCall(capacity, ops, n);
      var answer := Ask(cache, ops[n]);
      answers := answers + [answer];
    }
    assert ops[..|ops|] == ops;
  }
}
