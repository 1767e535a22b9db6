/** Pairs of an index entry and an item, sorted by the index entries: the specification of vector_sort_soa_items
    and vector_find in dse/clib/collections/vector.h. */
module SoaSorting {
  import opened Options

  datatype Pair<I, T> = Pair(key: I, item: T)

  predicate Orders<I>(cmp: (I, I) -> int, a: I, b: I, c: I) {
    && (cmp(a, b) > 0 <==> cmp(b, a) < 0)
    && (cmp(a, b) <= 0 && cmp(b, c) <= 0 ==> cmp(a, c) <= 0)
  }

  /** The comparison function orders the keys: a total preorder with consistent signs. */
  ghost predicate Ordering<I(!new)>(cmp: (I, I) -> int) {
    forall a, b, c :: Orders(cmp, a, b, c)
  }

  /** Comparing by a rank, whatever it is, is such an ordering; keys of equal rank need not be equal. */
  lemma RankIsOrdering<I(!new)>(rank: I -> int)
    ensures Ordering((a: I, b: I) => rank(a) - rank(b))
  {
    var cmp := (a: I, b: I) => rank(a) - rank(b);
    forall a, b, c ensures Orders(cmp, a, b, c) {
    }
  }

  /** Where the inner loop stops: to the left of all larger keys, scanning from the right. */
  function Slot<I, T>(cmp: (I, I) -> int, s: seq<Pair<I, T>>, key: I): (k: nat)
    ensures k <= |s|
  {
    if s == [] then 0
    else if cmp(s[|s| - 1].key, key) > 0 then Slot(cmp, s[..|s| - 1], key)
    else |s|
  }

  function Insert<I, T>(cmp: (I, I) -> int, s: seq<Pair<I, T>>, x: Pair<I, T>): seq<Pair<I, T>> {
    var k := Slot(cmp, s, x.key);
    s[..k] + [x] + s[k..]
  }

  /** The insertion sort, from the left. */
  function Sort<I, T>(cmp: (I, I) -> int, s: seq<Pair<I, T>>): (r: seq<Pair<I, T>>)
    ensures |r| == |s|
  {
    if s == [] then [] else Insert(cmp, Sort(cmp, s[..|s| - 1]), s[|s| - 1])
  }

  predicate Sorted<I, T>(cmp: (I, I) -> int, s: seq<Pair<I, T>>) {
    forall i, j :: 0 <= i < j < |s| ==> cmp(s[i].key, s[j].key) <= 0
  }

  /** The pairs whose key equals this one, in their order. */
  function Equals<I, T>(cmp: (I, I) -> int, s: seq<Pair<I, T>>, key: I): seq<Pair<I, T>> {
    if s == [] then []
    else
      Equals(cmp, s[..|s| - 1], key) + (if cmp(s[|s| - 1].key, key) == 0 then [s[|s| - 1]] else [])
  }

  // ---- insertion ----

  lemma {:induction false} SlotSplits<I(!new), T>(cmp: (I, I) -> int, s: seq<Pair<I, T>>, key: I)
    requires Ordering(cmp) && Sorted(cmp, s)
    ensures var k := Slot(cmp, s, key);
            && (forall i :: 0 <= i < k ==> cmp(s[i].key, key) <= 0)
            && (forall i :: k <= i < |s| ==> cmp(s[i].key, key) > 0)
    decreases |s|
  {
    if s != [] {
      var n := |s| - 1;
      if cmp(s[n].key, key) > 0 {
        SlotSplits(cmp, s[..n], key);
      } else {
        forall i | 0 <= i < n ensures cmp(s[i].key, key) <= 0 {
          assert Orders(cmp, s[i].key, s[n].key, key);
        }
      }
    }
  }

  lemma {:induction false} EqualsConcat<I, T>(cmp: (I, I) -> int, x: seq<Pair<I, T>>, y: seq<Pair<I, T>>, key: I)
    ensures Equals(cmp, x + y, key) == Equals(cmp, x, key) + Equals(cmp, y, key)
    decreases |y|
  {
    if y == [] {
      assert x + y == x;
    } else {
      EqualsConcat(cmp, x, y[..|y| - 1], key);
      assert (x + y)[..|x + y| - 1] == x + y[..|y| - 1];
    }
  }

  lemma {:induction false} NoneEqual<I, T>(cmp: (I, I) -> int, s: seq<Pair<I, T>>, key: I)
    requires forall i :: 0 <= i < |s| ==> cmp(s[i].key, key) != 0
    ensures Equals(cmp, s, key) == []
    decreases |s|
  {
    if s != [] {
      NoneEqual(cmp, s[..|s| - 1], key);
    }
  }

  lemma InsertKeepsOrder<I(!new), T>(cmp: (I, I) -> int, s: seq<Pair<I, T>>, x: Pair<I, T>)
    requires Ordering(cmp) && Sorted(cmp, s)
    ensures Sorted(cmp, Insert(cmp, s, x))
  {
    SlotSplits(cmp, s, x.key);
    var k := Slot(cmp, s, x.key);
    forall i | k <= i < |s| ensures cmp(x.key, s[i].key) <= 0 {
      assert Orders(cmp, s[i].key, x.key, x.key);
    }
    SortedWith(cmp, s, x, k);
  }

  lemma SortedWith<I, T>(cmp: (I, I) -> int, s: seq<Pair<I, T>>, x: Pair<I, T>, k: nat)
    requires Sorted(cmp, s) && k <= |s|
    requires forall i :: 0 <= i < k ==> cmp(s[i].key, x.key) <= 0
    requires forall i :: k <= i < |s| ==> cmp(x.key, s[i].key) <= 0
    ensures Sorted(cmp, s[..k] + [x] + s[k..])
  {
    var r := s[..k] + [x] + s[k..];
    forall i, j | 0 <= i < j < |r| ensures cmp(r[i].key, r[j].key) <= 0 {
      assert r[i] == if i < k then s[i] else if i == k then x else s[i - 1];
      assert r[j] == if j < k then s[j] else if j == k then x else s[j - 1];
    }
  }

  lemma InsertKeepsPairs<I, T>(cmp: (I, I) -> int, s: seq<Pair<I, T>>, x: Pair<I, T>)
    ensures multiset(Insert(cmp, s, x)) == multiset(s) + multiset{x}
  {
    var k := Slot(cmp, s, x.key);
    assert s == s[..k] + s[k..];
  }

  /** A new pair goes behind the older ones with an equal key. */
  lemma InsertIsStable<I(!new), T>(cmp: (I, I) -> int, s: seq<Pair<I, T>>, x: Pair<I, T>, key: I)
    requires Ordering(cmp) && Sorted(cmp, s)
    ensures Equals(cmp, Insert(cmp, s, x), key) == Equals(cmp, s + [x], key)
  {
    SlotSplits(cmp, s, x.key);
    var k := Slot(cmp, s, x.key);
    var high := s[k..];
    forall i | 0 <= i < |high| && cmp(x.key, key) == 0 ensures cmp(high[i].key, key) != 0 {
      assert high[i] == s[k + i];
      LargerThanEqual(cmp, high[i].key, x.key, key);
    }
    assert s == s[..k] + high;
    PassOver(cmp, s[..k], high, x, key);
  }

  lemma PassOver<I, T>(cmp: (I, I) -> int, low: seq<Pair<I, T>>, high: seq<Pair<I, T>>, x: Pair<I, T>, key: I)
    requires cmp(x.key, key) == 0 ==> forall i :: 0 <= i < |high| ==> cmp(high[i].key, key) != 0
    ensures Equals(cmp, low + [x] + high, key) == Equals(cmp, low + high + [x], key)
  {
    var e := [x];
    EqualsConcat(cmp, low + e, high, key);
    EqualsConcat(cmp, low, e, key);
    EqualsConcat(cmp, low + high, e, key);
    EqualsConcat(cmp, low, high, key);
    var a, b, c := Equals(cmp, low, key), Equals(cmp, high, key), Equals(cmp, e, key);
    if cmp(x.key, key) == 0 {
      NoneEqual(cmp, high, key);
      assert a + c + b == a + c == a + b + c;
    } else {
      NoneEqual(cmp, e, key);
      assert a + c + b == a + b == a + b + c;
    }
  }

  lemma LargerThanEqual<I(!new)>(cmp: (I, I) -> int, a: I, b: I, c: I)
    requires Ordering(cmp) && cmp(a, b) > 0 && cmp(b, c) == 0
    ensures cmp(a, c) != 0
  {
    assert Orders(cmp, b, c, a) && Orders(cmp, c, b, b) && Orders(cmp, a, c, b);
  }

  // ---- the sort ----

  /** The sort yields a sorted permutation of the pairs in which equal keys keep their order. */
  lemma {:induction false} SortIsStable<I(!new), T>(cmp: (I, I) -> int, s: seq<Pair<I, T>>)
    requires Ordering(cmp)
    ensures Sorted(cmp, Sort(cmp, s))
    ensures multiset(Sort(cmp, s)) == multiset(s)
    ensures forall key :: Equals(cmp, Sort(cmp, s), key) == Equals(cmp, s, key)
    decreases |s|
  {
    if s != [] {
      var before, x := s[..|s| - 1], s[|s| - 1];
      SortIsStable(cmp, before);
      assert s == before + [x];
      InsertKeepsOrder(cmp, Sort(cmp, before), x);
      InsertKeepsPairs(cmp, Sort(cmp, before), x);
      forall key ensures Equals(cmp, Sort(cmp, s), key) == Equals(cmp, s, key) {
        InsertIsStable(cmp, Sort(cmp, before), x, key);
        EqualsConcat(cmp, Sort(cmp, before), [x], key);
        EqualsConcat(cmp, before, [x], key);
      }
    }
  }

  lemma {:induction false} EqualsHolds<I, T>(cmp: (I, I) -> int, s: seq<Pair<I, T>>, key: I, i: nat)
    requires i < |s| && cmp(s[i].key, key) == 0
    ensures Equals(cmp, s, key) != []
    decreases |s|
  {
    if i < |s| - 1 {
      EqualsHolds(cmp, s[..|s| - 1], key, i);
    }
  }

  lemma EqualsNonEmpty<I(!new), T>(cmp: (I, I) -> int, s: seq<Pair<I, T>>, key: I)
    ensures Equals(cmp, s, key) != [] <==> exists i :: 0 <= i < |s| && cmp(s[i].key, key) == 0
  {
    if i :| 0 <= i < |s| && cmp(s[i].key, key) == 0 {
      EqualsHolds(cmp, s, key, i);
    } else {
      NoneEqual(cmp, s, key);
    }
  }

  /** There is only one such arrangement, so the sort's result does not depend on how it is reached. */
  lemma {:induction false} StableSortIsUnique<I(!new), T(!new)>(cmp: (I, I) -> int, s: seq<Pair<I, T>>, r: seq<Pair<I, T>>)
    requires Ordering(cmp) && Sorted(cmp, r)
    requires forall key :: Equals(cmp, r, key) == Equals(cmp, s, key)
    ensures r == Sort(cmp, s)
  {
    SortIsStable(cmp, s);
    SortedAlike(cmp, r, Sort(cmp, s));
  }

  lemma {:induction false} SortedAlike<I(!new), T(!new)>(cmp: (I, I) -> int, r: seq<Pair<I, T>>, q: seq<Pair<I, T>>)
    requires Ordering(cmp) && Sorted(cmp, r) && Sorted(cmp, q)
    requires forall key :: Equals(cmp, r, key) == Equals(cmp, q, key)
    ensures r == q
    decreases |r|
  {
    if r == [] {
      if q != [] {
        assert Orders(cmp, q[0].key, q[0].key, q[0].key);
        EqualsNonEmpty(cmp, q, q[0].key);
      }
    } else {
      LastKeysEqual(cmp, r, q);
      LastAlike(cmp, r, q);
      var m, n := |r| - 1, |q| - 1;
      forall key ensures Equals(cmp, r[..m], key) == Equals(cmp, q[..n], key) {
        EqualsButLast(cmp, r, q, key);
      }
      SortedAlike(cmp, r[..m], q[..n]);
      assert r == r[..m] + [r[m]] && q == q[..n] + [q[n]];
    }
  }

  lemma EqualsButLast<I, T>(cmp: (I, I) -> int, r: seq<Pair<I, T>>, q: seq<Pair<I, T>>, key: I)
    requires r != [] && q != [] && r[|r| - 1] == q[|q| - 1] && Equals(cmp, r, key) == Equals(cmp, q, key)
    ensures Equals(cmp, r[..|r| - 1], key) == Equals(cmp, q[..|q| - 1], key)
  {
    var a, b := Equals(cmp, r[..|r| - 1], key), Equals(cmp, q[..|q| - 1], key);
    var x := r[|r| - 1];
    if cmp(x.key, key) == 0 {
      assert a == (a + [x])[..|a|] && b == (b + [x])[..|b|];
    } else {
      assert a + [] == a && b + [] == b;
    }
  }

  /** The largest keys of two such sequences agree. */
  lemma LastKeysEqual<I(!new), T(!new)>(cmp: (I, I) -> int, r: seq<Pair<I, T>>, q: seq<Pair<I, T>>)
    requires Ordering(cmp) && Sorted(cmp, q) && r != []
    requires Equals(cmp, r, r[|r| - 1].key) == Equals(cmp, q, r[|r| - 1].key)
    ensures q != [] && cmp(r[|r| - 1].key, q[|q| - 1].key) <= 0
  {
    var x := r[|r| - 1];
    assert Orders(cmp, x.key, x.key, x.key);
    EqualsNonEmpty(cmp, r, x.key);
    EqualsNonEmpty(cmp, q, x.key);
    var i :| 0 <= i < |q| && cmp(q[i].key, x.key) == 0;
    var y := q[|q| - 1];
    assert cmp(q[i].key, y.key) <= 0 by {
      assert Orders(cmp, y.key, y.key, y.key);
    }
    Chain(cmp, x.key, q[i].key, y.key);
  }

  lemma Chain<I(!new)>(cmp: (I, I) -> int, a: I, b: I, c: I)
    requires Ordering(cmp) && cmp(b, a) == 0 && cmp(b, c) <= 0
    ensures cmp(a, c) <= 0
  {
    assert Orders(cmp, a, b, c) && Orders(cmp, b, a, a);
  }

  lemma LastAlike<I(!new), T(!new)>(cmp: (I, I) -> int, r: seq<Pair<I, T>>, q: seq<Pair<I, T>>)
    requires Ordering(cmp) && Sorted(cmp, r) && Sorted(cmp, q) && r != [] && q != []
    requires Equals(cmp, r, r[|r| - 1].key) == Equals(cmp, q, r[|r| - 1].key)
    requires Equals(cmp, r, q[|q| - 1].key) == Equals(cmp, q, q[|q| - 1].key)
    ensures r[|r| - 1] == q[|q| - 1]
  {
    LastKeysEqual(cmp, r, q);
    LastKeysEqual(cmp, q, r);
    var x, y := r[|r| - 1], q[|q| - 1];
    assert Orders(cmp, x.key, y.key, y.key) && Orders(cmp, x.key, x.key, x.key);
    assert Orders(cmp, y.key, x.key, x.key);
    EqualsEnd(cmp, r, x.key);
    EqualsEnd(cmp, q, x.key);
  }

  lemma EqualsEnd<I, T>(cmp: (I, I) -> int, s: seq<Pair<I, T>>, key: I)
    requires s != [] && cmp(s[|s| - 1].key, key) == 0
    ensures var e := Equals(cmp, s, key); e != [] && e[|e| - 1] == s[|s| - 1]
  {
  }

  // ---- finding ----

  function Keys<I, T>(s: seq<Pair<I, T>>): (r: seq<I>)
    ensures |r| == |s| && forall i :: 0 <= i < |s| ==> r[i] == s[i].key
  {
    seq(|s|, i requires 0 <= i < |s| => s[i].key)
  }

  /** What the C library promises of bsearch: the result is an element of the sequence, and in an ordered sequence
      it is some equal element if there is one. */
  ghost predicate Searches<I(!new)>(search: (seq<I>, I) -> Option<nat>, cmp: (I, I) -> int) {
    forall s: seq<I>, key: I ::
      && (search(s, key).Some? ==> search(s, key).value < |s|)
      && ((forall i, j :: 0 <= i < j < |s| ==> cmp(s[i], s[j]) <= 0) ==>
            match search(s, key)
            case Some(k) => cmp(key, s[k]) == 0
            case None => forall i :: 0 <= i < |s| ==> cmp(key, s[i]) != 0)
  }

  function FirstEqual<I>(cmp: (I, I) -> int, s: seq<I>, key: I): (r: Option<nat>)
    ensures r.Some? ==> r.value < |s| && cmp(key, s[r.value]) == 0
    ensures r.None? ==> forall i :: 0 <= i < |s| ==> cmp(key, s[i]) != 0
  {
    if s == [] then None
    else if cmp(key, s[0]) == 0 then Some(0)
    else match FirstEqual(cmp, s[1..], key) case Some(k) => Some(k + 1) case None => None
  }

  /** The contract of bsearch can be met: looking from the front meets it. */
  lemma SearchFromFront<I(!new)>(cmp: (I, I) -> int)
    ensures Searches((s: seq<I>, key: I) => FirstEqual(cmp, s, key), cmp)
  {
  }

  /** vector_find: the position of the matching item. */
  function Find<I, T>(search: (seq<I>, I) -> Option<nat>, s: seq<Pair<I, T>>, key: I, start: nat): Option<nat> {
    if start >= |s| then None
    else
      match search(Keys(s)[start..], key)
      case Some(k) => Some(start + k)
      case None => None
  }

  /** A find after the sort returns an item that was paired with an equal key before it, and fails exactly when
      there was none. */
  lemma FindAfterSort<I(!new), T>(cmp: (I, I) -> int, search: (seq<I>, I) -> Option<nat>, s: seq<Pair<I, T>>, key: I)
    requires Ordering(cmp) && Searches(search, cmp)
    ensures match Find(search, Sort(cmp, s), key, 0)
            case Some(k) => k < |s| && Sort(cmp, s)[k] in s && cmp(key, Sort(cmp, s)[k].key) == 0
            case None => forall p :: p in s ==> cmp(key, p.key) != 0
  {
    var r := Sort(cmp, s);
    SortIsStable(cmp, s);
    FindFromStart(cmp, search, r, key, 0);
    SameMembers(r, s);
  }

  lemma SameMembers<P>(r: seq<P>, s: seq<P>)
    requires multiset(r) == multiset(s)
    ensures forall i :: 0 <= i < |r| ==> r[i] in s
    ensures forall p :: p in s ==> exists i :: 0 <= i < |r| && r[i] == p
  {
    forall i | 0 <= i < |r| ensures r[i] in s {
      assert r[i] in multiset(s);
    }
    forall p | p in s ensures exists i :: 0 <= i < |r| && r[i] == p {
      assert p in multiset(r);
    }
  }

  /** A find from any start in a sorted vector. */
  lemma FindFromStart<I(!new), T>(cmp: (I, I) -> int, search: (seq<I>, I) -> Option<nat>, s: seq<Pair<I, T>>, key: I, start: nat)
    requires Searches(search, cmp) && Sorted(cmp, s)
    ensures match Find(search, s, key, start)
            case Some(k) => start <= k < |s| && cmp(key, s[k].key) == 0
            case None => forall i :: start <= i < |s| ==> cmp(key, s[i].key) != 0
  {
    if start < |s| {
      var tail := Keys(s)[start..];
      assert forall i :: start <= i < |s| ==> tail[i - start] == s[i].key;
    }
  }
}
