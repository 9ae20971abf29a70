/** The least-recently-used cache: a list in order of use, a hash map from keys to list positions, and a bounded
    list of records still to be written out. Its state is a function of the whole history of AddRecord calls. */
module LruCache {
  datatype Pair<K, V> = Pair(key: K, value: V)

  // ----- specification: functions of the history, oldest call first -----

  predicate HasKey<K(==), V>(l: seq<Pair<K, V>>, k: K) { l != [] && (l[0].key == k || HasKey(l[1..], k)) }

  function Without<K(==), V>(l: seq<Pair<K, V>>, k: K): seq<Pair<K, V>> {
    if l == [] then []
    else if l[0].key == k then Without(l[1..], k)
    else [l[0]] + Without(l[1..], k)
  }

  /** The distinct keys used so far, last used first, each with its last value. */
  function Recency<K(==), V>(h: seq<Pair<K, V>>): seq<Pair<K, V>> {
    if h == [] then []
    else var last := h[|h| - 1]; [last] + Without(Recency(h[..|h| - 1]), last.key)
  }

  function Take<T>(l: seq<T>, n: nat): seq<T> { if l == [] || n == 0 then [] else [l[0]] + Take(l[1..], n - 1) }

  /** What a cache of this capacity holds after the calls h. */
  function Cached<K(==), V>(h: seq<Pair<K, V>>, capacity: nat): seq<Pair<K, V>> { Take(Recency(h), capacity) }

  /** The calls that found their key absent, newest first. */
  function Misses<K(==), V>(h: seq<Pair<K, V>>, capacity: nat): seq<Pair<K, V>> {
    if h == [] then []
    else
      var before, last := h[..|h| - 1], h[|h| - 1];
      if HasKey(Cached(before, capacity), last.key) then Misses(before, capacity)
      else [last] + Misses(before, capacity)
  }

  // ----- what Recency means -----

  predicate DistinctKeys<K(==), V>(l: seq<Pair<K, V>>) {
    l != [] ==> !HasKey(l[1..], l[0].key) && DistinctKeys(l[1..])
  }

  /** The position of the last call with key k, or -1. */
  function LastUse<K(==), V>(h: seq<Pair<K, V>>, k: K): (i: int)
    ensures -1 <= i < |h|
    ensures i >= 0 ==> h[i].key == k
    ensures forall j :: i < j < |h| ==> h[j].key != k
  {
    if h == [] then -1
    else if h[|h| - 1].key == k then |h| - 1
    else LastUse(h[..|h| - 1], k)
  }

  lemma {:induction false} WithoutKeys<K, V>(l: seq<Pair<K, V>>, k: K, other: K)
    ensures HasKey(Without(l, k), other) <==> HasKey(l, other) && other != k
  {
    if l != [] { WithoutKeys(l[1..], k, other); }
  }

  lemma {:induction false} WithoutDistinct<K, V>(l: seq<Pair<K, V>>, k: K)
    requires DistinctKeys(l)
    ensures DistinctKeys(Without(l, k))
    ensures !HasKey(l, k) ==> Without(l, k) == l
  {
    if l != [] {
      WithoutDistinct(l[1..], k);
      WithoutKeys(l[1..], k, l[0].key);
    }
  }

  /** Each entry of l is the last call with its key, all before call `limit`, later calls first. */
  predicate ByLastUse<K(==), V(==)>(h: seq<Pair<K, V>>, l: seq<Pair<K, V>>, limit: nat) {
    l != [] ==>
      var i := LastUse(h, l[0].key);
      0 <= i < limit && h[i] == l[0] && ByLastUse(h, l[1..], i)
  }

  lemma {:induction false} ByLastUseAfter<K, V>(before: seq<Pair<K, V>>, last: Pair<K, V>, l: seq<Pair<K, V>>,
                                                limit: nat)
    requires ByLastUse(before, l, limit)
    ensures ByLastUse(before + [last], Without(l, last.key), limit)
  {
    if l != [] {
      var i := LastUse(before, l[0].key);
      ByLastUseAfter(before, last, l[1..], i);
      assert (before + [last])[..|before|] == before;
      if l[0].key == last.key { ByLastUseWeaken(before + [last], Without(l, last.key), i, limit); }
    }
  }

  lemma ByLastUseWeaken<K, V>(h: seq<Pair<K, V>>, l: seq<Pair<K, V>>, limit: nat, more: nat)
    requires ByLastUse(h, l, limit) && limit <= more
    ensures ByLastUse(h, l, more)
  {
  }

  /** Recency lists every key used, once, with the value of its last call, ordered by the time of that call. */
  lemma {:induction false} RecencyMeaning<K(!new), V>(h: seq<Pair<K, V>>)
    ensures DistinctKeys(Recency(h)) && ByLastUse(h, Recency(h), |h|)
    ensures forall k :: HasKey(Recency(h), k) <==> LastUse(h, k) >= 0
  {
    if h != [] {
      var before, last := h[..|h| - 1], h[|h| - 1];
      var w := Without(Recency(before), last.key);
      RecencyMeaning(before);
      WithoutDistinct(Recency(before), last.key);
      WithoutKeys(Recency(before), last.key, last.key);
      ByLastUseAfter(before, last, Recency(before), |before|);
      assert h == before + [last] && Recency(h)[1..] == w;
      forall k
        ensures HasKey(Recency(h), k) <==> LastUse(h, k) >= 0
      {
        WithoutKeys(Recency(before), last.key, k);
      }
    }
  }

  // ----- one more call -----

  lemma {:induction false} TakeKeys<K, V>(l: seq<Pair<K, V>>, n: nat, k: K)
    ensures HasKey(Take(l, n), k) ==> HasKey(l, k)
  {
    if l != [] && n > 0 {
      TakeKeys(l[1..], n - 1, k);
      assert Take(l, n)[1..] == Take(l[1..], n - 1);
    }
  }

  lemma {:induction false} TakeDistinct<K, V>(l: seq<Pair<K, V>>, n: nat)
    requires DistinctKeys(l)
    ensures DistinctKeys(Take(l, n))
  {
    if l != [] && n > 0 {
      TakeDistinct(l[1..], n - 1);
      TakeKeys(l[1..], n - 1, l[0].key);
      assert Take(l, n)[1..] == Take(l[1..], n - 1);
    }
  }

  /** Taking out a key that is among the first n leaves the same as taking the first n and then taking it out. */
  lemma {:induction false} TakeWithoutHit<K, V>(l: seq<Pair<K, V>>, n: nat, k: K)
    requires DistinctKeys(l) && n > 0 && HasKey(Take(l, n), k)
    ensures Take(Without(l, k), n - 1) == Without(Take(l, n), k)
  {
    assert Take(l, n)[1..] == Take(l[1..], n - 1);
    if l[0].key == k {
      WithoutDistinct(l[1..], k);
      TakeDistinct(l[1..], n - 1);
      TakeKeys(l[1..], n - 1, k);
      WithoutDistinct(Take(l[1..], n - 1), k);
    } else {
      assert n > 1;
      TakeWithoutHit(l[1..], n - 1, k);
    }
  }

  lemma {:induction false} TakeWithoutMiss<K, V>(l: seq<Pair<K, V>>, n: nat, k: K)
    requires DistinctKeys(l) && n > 0 && !HasKey(Take(l, n), k)
    ensures Take(Without(l, k), n - 1) == Take(Take(l, n), n - 1)
  {
    if l != [] {
      assert Take(l, n)[1..] == Take(l[1..], n - 1);
      if n > 1 { TakeWithoutMiss(l[1..], n - 1, k); }
    }
  }

  lemma CachedAfter<K(!new), V>(h: seq<Pair<K, V>>, p: Pair<K, V>, n: nat)
    requires n > 0
    ensures Cached(h + [p], n) == [p] +
              if HasKey(Cached(h, n), p.key) then Without(Cached(h, n), p.key) else Take(Cached(h, n), n - 1)
  {
    RecencyMeaning(h);
    assert (h + [p])[..|h|] == h;
    assert Recency(h + [p])[1..] == Without(Recency(h), p.key);
    if HasKey(Cached(h, n), p.key) {
      TakeWithoutHit(Recency(h), n, p.key);
    } else {
      TakeWithoutMiss(Recency(h), n, p.key);
    }
  }

  lemma MissesAfter<K, V>(h: seq<Pair<K, V>>, p: Pair<K, V>, n: nat)
    ensures Misses(h + [p], n) == (if HasKey(Cached(h, n), p.key) then [] else [p]) + Misses(h, n)
  {
    assert (h + [p])[..|h|] == h;
  }

  // ----- the list of nodes -----

  /** A node of the std::list. An iterator is the identity of a node: it stays valid while other nodes come and go. */
  datatype Node<K, V> = Node(id: nat, pair: Pair<K, V>)

  function Contents<K, V>(l: seq<Node<K, V>>): seq<Pair<K, V>> {
    if l == [] then [] else [l[0].pair] + Contents(l[1..])
  }

  /** The node ids by key. */
  function MapOf<K(==), V>(l: seq<Node<K, V>>): map<K, nat> {
    if l == [] then map[] else MapOf(l[1..])[l[0].pair.key := l[0].id]
  }

  predicate HasId<K, V>(l: seq<Node<K, V>>, id: nat) { l != [] && (l[0].id == id || HasId(l[1..], id)) }

  predicate DistinctIds<K, V>(l: seq<Node<K, V>>) { l != [] ==> !HasId(l[1..], l[0].id) && DistinctIds(l[1..]) }

  predicate IdsBelow<K, V>(l: seq<Node<K, V>>, n: nat) { l != [] ==> l[0].id < n && IdsBelow(l[1..], n) }

  /** `*it` */
  function Deref<K, V>(l: seq<Node<K, V>>, id: nat): Pair<K, V>
    requires HasId(l, id)
  {
    if l[0].id == id then l[0].pair else Deref(l[1..], id)
  }

  /** `erase(it)` */
  function Erase<K, V>(l: seq<Node<K, V>>, id: nat): seq<Node<K, V>> {
    if l == [] then [] else if l[0].id == id then l[1..] else [l[0]] + Erase(l[1..], id)
  }

  lemma {:induction false} MapOfKeys<K, V>(l: seq<Node<K, V>>, k: K)
    ensures HasKey(Contents(l), k) <==> k in MapOf(l)
    ensures k in MapOf(l) ==> HasId(l, MapOf(l)[k])
  {
    if l != [] {
      MapOfKeys(l[1..], k);
      assert Contents(l)[1..] == Contents(l[1..]);
    }
  }

  /** Following the map's iterator for k finds the node of k, and erasing there takes out k and nothing else. */
  lemma {:induction false} EraseIsWithout<K, V>(l: seq<Node<K, V>>, k: K)
    requires DistinctIds(l) && DistinctKeys(Contents(l)) && k in MapOf(l)
    ensures HasId(l, MapOf(l)[k]) && Deref(l, MapOf(l)[k]).key == k
    ensures Contents(Erase(l, MapOf(l)[k])) == Without(Contents(l), k)
    ensures MapOf(Erase(l, MapOf(l)[k])) == MapOf(l) - {k}
    ensures DistinctIds(Erase(l, MapOf(l)[k]))
  {
    var id := MapOf(l)[k];
    assert Contents(l)[1..] == Contents(l[1..]);
    MapOfKeys(l[1..], k);
    if l[0].pair.key == k {
      WithoutDistinct(Contents(l[1..]), k);
    } else {
      EraseIsWithout(l[1..], k);
      EraseIds(l[1..], id, l[0].id);
      assert Erase(l, id)[1..] == Erase(l[1..], id);
    }
  }

  lemma {:induction false} EraseIds<K, V>(l: seq<Node<K, V>>, id: nat, other: nat)
    ensures HasId(Erase(l, id), other) ==> HasId(l, other)
  {
    if l != [] && l[0].id != id {
      EraseIds(l[1..], id, other);
      assert Erase(l, id)[1..] == Erase(l[1..], id);
    }
  }

  lemma {:induction false} EraseBelow<K, V>(l: seq<Node<K, V>>, id: nat, n: nat)
    requires IdsBelow(l, n)
    ensures IdsBelow(Erase(l, id), n)
  {
    if l != [] && l[0].id != id {
      EraseBelow(l[1..], id, n);
      assert Erase(l, id)[1..] == Erase(l[1..], id);
    }
  }

  lemma {:induction false} BelowIsNew<K, V>(l: seq<Node<K, V>>, n: nat)
    requires IdsBelow(l, n)
    ensures !HasId(l, n) && IdsBelow(l, n + 1)
  {
    if l != [] { BelowIsNew(l[1..], n); }
  }

  /** The map's iterator for the last key is that of the last node. */
  lemma {:induction false} EraseLast<K, V>(l: seq<Node<K, V>>)
    requires l != [] && DistinctIds(l) && DistinctKeys(Contents(l))
    ensures var k := l[|l| - 1].pair.key; k in MapOf(l) && Erase(l, MapOf(l)[k]) == l[..|l| - 1]
  {
    var k := l[|l| - 1].pair.key;
    assert Contents(l)[1..] == Contents(l[1..]);
    if |l| > 1 {
      EraseLast(l[1..]);
      MapOfKeys(l[1..], k);
      assert l[1..][..|l| - 2] == l[1..|l| - 1];
      assert [l[0]] + l[1..|l| - 1] == l[..|l| - 1];
    }
  }

  lemma {:induction false} ContentsTake<K, V>(l: seq<Node<K, V>>, n: nat)
    requires n <= |l|
    ensures Contents(l[..n]) == Take(Contents(l), n) && |Contents(l)| == |l|
  {
    if l != [] {
      assert Contents(l)[1..] == Contents(l[1..]);
      ContentsTake(l[1..], if n > 0 then n - 1 else 0);
      if n > 0 { assert l[..n][1..] == l[1..][..n - 1]; }
    }
  }

  lemma {:induction false} TakeIsPrefix<T>(l: seq<T>, n: nat)
    ensures Take(l, n) == if n <= |l| then l[..n] else l
  {
    if l != [] && n > 0 { TakeIsPrefix(l[1..], n - 1); }
  }

  lemma TakeFront<T>(x: T, l: seq<T>, n: nat)
    ensures |Take(l, n)| <= n && Take([x] + Take(l, n), n) == Take([x] + l, n)
  {
    TakeIsPrefix(l, n);
    TakeIsPrefix([x] + l, n);
    TakeIsPrefix([x] + Take(l, n), n);
  }

  // ----- the cache -----

  type int32 = x: int | -0x8000_0000 <= x < 0x8000_0000

  const SIZE_T_RANGE: int := 0x1_0000_0000_0000_0000

  class LruCache<K(==, !new), V> {
    var resultList: seq<Node<K, V>>
    var hashMap: map<K, nat>
    var pendingUpdateList: seq<Pair<K, V>>
    const cacheSize: int32
    var nextId: nat               // the allocator: an address no node has had
    ghost var history: seq<Pair<K, V>>

    /** _cache_size is an int that is compared with sizes, which turns a negative one into a huge one. */
    function Capacity(): (c: nat)
      ensures c == cacheSize % SIZE_T_RANGE
    {
      if cacheSize >= 0 then cacheSize else cacheSize + SIZE_T_RANGE
    }

    /** The map is exactly the iterators to the nodes of the list, by key, and no two nodes have the same key. */
    ghost predicate Linked()
      reads this
    {
      && DistinctIds(resultList) && IdsBelow(resultList, nextId)
      && DistinctKeys(Contents(resultList))
      && hashMap == MapOf(resultList)
    }

    ghost predicate Valid()
      reads this
    {
      && Linked()
      && Contents(resultList) == Cached(history, Capacity())
      && pendingUpdateList == Take(Misses(history, Capacity()), Capacity())
    }

    constructor (size: int32)
      ensures Valid() && history == [] && cacheSize == size
    {
      resultList, hashMap, pendingUpdateList, cacheSize, nextId, history := [], map[], [], size, 0, [];
    }

    method DeleteRear()
      requires Linked() && resultList != []
      modifies this`resultList, this`hashMap
      ensures Linked() && Contents(resultList) == Take(old(Contents(resultList)), |old(resultList)| - 1)
      ensures MapOf(resultList) == old(hashMap - {resultList[|resultList| - 1].pair.key})
    {
      ghost var l := resultList;
      var key := resultList[|resultList| - 1].pair.key;
      EraseLast(l);
      EraseIsWithout(l, key);
      EraseBelow(l, hashMap[key], nextId);
      WithoutDistinct(Contents(l), key);
      ContentsTake(l, |l| - 1);
      resultList := resultList[..|resultList| - 1];
      hashMap := hashMap - {key};
    }

    method AddFront(key: K, value: V)
      requires Linked() && key !in hashMap
      modifies this`resultList, this`hashMap, this`nextId
      ensures Linked() && Contents(resultList) == [Pair(key, value)] + old(Contents(resultList))
    {
      BelowIsNew(resultList, nextId);
      MapOfKeys(resultList, key);
      ghost var l := resultList;
      resultList := [Node(nextId, Pair(key, value))] + resultList;
      hashMap := hashMap[key := nextId];
      nextId := nextId + 1;
      assert resultList[1..] == l && Contents(resultList)[1..] == Contents(l);
    }

    method MoveToFront(key: K)
      requires Linked() && key in hashMap
      modifies this`resultList, this`hashMap, this`nextId
      ensures Linked() && resultList != [] && resultList[0].pair.key == key
      ensures Contents(resultList[1..]) == Without(old(Contents(resultList)), key)
    {
      ghost var l := resultList;
      EraseIsWithout(l, key);
      EraseBelow(l, hashMap[key], nextId);
      WithoutDistinct(Contents(l), key);
      WithoutKeys(Contents(l), key, key);
      var it := hashMap[key];
      var tmp := Deref(resultList, it);
      resultList := Erase(resultList, it);
      BelowIsNew(resultList, nextId);
      ghost var rest := resultList;
      resultList := [Node(nextId, tmp)] + resultList;
      hashMap := hashMap[key := nextId];
      nextId := nextId + 1;
      assert resultList[1..] == rest && Contents(resultList)[1..] == Contents(rest);
    }

    /** `_result_list.begin()->second = result` */
    method SetFront(value: V)
      requires Linked() && resultList != []
      modifies this`resultList
      ensures Linked()
      ensures Contents(resultList) == [Pair(old(resultList)[0].pair.key, value)] + Contents(old(resultList)[1..])
    {
      ghost var l := resultList;
      resultList := [resultList[0].(pair := resultList[0].pair.(value := value))] + resultList[1..];
      assert resultList[1..] == l[1..];
      assert Contents(resultList)[1..] == Contents(l[1..]) == Contents(l)[1..];
    }

    method AddToPending(key: K, value: V)
      requires Capacity() > 0 && |pendingUpdateList| <= Capacity()
      modifies this`pendingUpdateList
      ensures pendingUpdateList == Take([Pair(key, value)] + old(pendingUpdateList), Capacity())
    {
      TakeIsPrefix([Pair(key, value)] + pendingUpdateList, Capacity());
      if |pendingUpdateList| == Capacity() {
        pendingUpdateList := pendingUpdateList[..|pendingUpdateList| - 1];
      }
      pendingUpdateList := [Pair(key, value)] + pendingUpdateList;
    }

    /** Valid() says what the three containers hold in terms of the history, so this says what every sequence of
        calls leaves in them. A cache of size 0 takes the last entry of an empty list, and so fails on every call. */
    method AddRecord(key: K, result: V) returns (crashed: bool)
      requires Valid()
      modifies this
      ensures crashed <==> cacheSize == 0
      ensures crashed ==> unchanged(this)
      ensures !crashed ==> Valid() && history == old(history) + [Pair(key, result)]
    {
      hide DistinctIds, IdsBelow, DistinctKeys, MapOf, HasId, Recency;
      FullWhenZero();
      crashed := key !in hashMap && |resultList| == Capacity() && resultList == [];
      if crashed {
        return;
      }
      ghost var p, c, h := Pair(key, result), Capacity(), history;
      CachedAfter(h, p, c);
      MissesAfter(h, p, c);
      MapOfKeys(resultList, key);
      if key in hashMap {
        MoveToFront(key);
        SetFront(result);
      } else {
        AddNew(key, result);
      }
      history := history + [p];
    }

    /** The branch of AddRecord for a key that is not cached, when the list is not both full and empty. */
    method AddNew(key: K, result: V)
      requires Valid() && Capacity() > 0 && key !in hashMap
      modifies this`resultList, this`hashMap, this`nextId, this`pendingUpdateList
      ensures Linked()
      ensures Contents(resultList) == [Pair(key, result)] + Take(Cached(history, Capacity()), Capacity() - 1)
      ensures pendingUpdateList == Take([Pair(key, result)] + Misses(history, Capacity()), Capacity())
    {
      hide Take, Contents, Misses, Recency, DistinctIds, IdsBelow, DistinctKeys, MapOf;
      TakeFront(Pair(key, result), Misses(history, Capacity()), Capacity());
      Evict();
      AddFront(key, result);
      AddToPending(key, result);
    }

    /** With size 0 the list is empty, and counts as full. */
    lemma FullWhenZero()
      requires Valid()
      ensures Capacity() == 0 <==> cacheSize == 0
      ensures cacheSize == 0 ==> resultList == [] && hashMap == map[]
    {
      ContentsTake(resultList, |resultList|);
    }

    /** The test for a full cache in AddRecord. */
    method Evict()
      requires Valid() && Capacity() > 0
      modifies this`resultList, this`hashMap
      ensures Linked() && Contents(resultList) == Take(old(Contents(resultList)), Capacity() - 1)
      ensures forall k :: k in hashMap ==> k in old(hashMap)
    {
      hide DistinctIds, IdsBelow, DistinctKeys, HasId, Recency, Misses, Contents, Take;
      ContentsTake(resultList, |resultList|);
      TakeIsPrefix(Recency(history), Capacity());
      TakeIsPrefix(Contents(resultList), Capacity() - 1);
      if |resultList| == Capacity() {
        DeleteRear();
      }
    }
  }
}
