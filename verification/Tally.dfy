/** Counting, for the things that keys lead to, how many keys do: what the letter index and the inverted index share. */
module Tally {
  /** An element of the set: hash maps and sets are walked in no particular order. */
  method Any<T>(s: set<T>) returns (x: T)
    requires s != {}
    ensures x in s
  {
    x :| x in s;
  }

  ghost function Hits<K, I>(found: (K, I) -> bool, keys: set<K>, i: I): set<K> {
    set k | k in keys && found(k, i)
  }

  /** counts holds the things that some key leads to, each with the number of such keys. */
  ghost predicate Tallies<K, I(!new)>(counts: map<I, nat>, found: (K, I) -> bool, keys: set<K>) {
    forall i :: (i in counts <==> Hits(found, keys, i) != {}) && (i in counts ==> counts[i] == |Hits(found, keys, i)|)
  }

  /** counts' is counts with one more for each of the things. */
  ghost predicate Bumped<I(!new)>(counts: map<I, nat>, counts': map<I, nat>, things: set<I>) {
    forall i :: (i in counts' <==> i in counts || i in things) &&
      (i in counts' ==> counts'[i] == (if i in counts then counts[i] else 0) + (if i in things then 1 else 0))
  }

  method Bump<I(!new,==)>(counts: map<I, nat>, things: set<I>) returns (r: map<I, nat>)
    ensures Bumped(counts, r, things)
  {
    r := counts;
    var todo := things;
    while todo != {}
      invariant todo <= things && Bumped(counts, r, things - todo)
    {
      var i := Any(todo);
      r := r[i := (if i in r then r[i] else 0) + 1];
      todo := todo - {i};
    }
  }

  lemma HitsStep<K, I>(found: (K, I) -> bool, keys: set<K>, key: K, i: I)
    requires key !in keys
    ensures Hits(found, keys + {key}, i) == Hits(found, keys, i) + if found(key, i) then {key} else {}
    ensures key !in Hits(found, keys, i)
  {
  }

  /** One more key. */
  lemma TallyStep<K, I(!new)>(counts: map<I, nat>, counts': map<I, nat>, found: (K, I) -> bool, keys: set<K>, key: K,
                       things: set<I>)
    requires Tallies(counts, found, keys) && key !in keys && Bumped(counts, counts', things)
    requires forall i :: i in things <==> found(key, i)
    ensures Tallies(counts', found, keys + {key})
  {
    hide Hits;
    forall i
      ensures (i in counts' <==> Hits(found, keys + {key}, i) != {}) &&
        (i in counts' ==> counts'[i] == |Hits(found, keys + {key}, i)|)
    {
      HitsStep(found, keys, key, i);
    }
  }

  /** The count is that of all keys exactly when all lead there. */
  lemma FullTally<K, I(!new)>(counts: map<I, nat>, found: (K, I) -> bool, keys: set<K>, i: I)
    requires Tallies(counts, found, keys) && keys != {}
    ensures (i in counts && counts[i] == |keys|) <==> forall k :: k in keys ==> found(k, i)
  {
    var hits := Hits(found, keys, i);
    if hits != keys {
      assert hits < keys;
      SmallerSet(hits, keys);
      var k :| k in keys && k !in hits;
    }
  }

  lemma {:induction false} SmallerSet<T>(a: set<T>, b: set<T>)
    requires a < b
    ensures |a| < |b|
  {
    if a != {} {
      var x :| x in a;
      SmallerSet(a - {x}, b - {x});
    }
  }
}
