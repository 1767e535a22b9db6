/** The list of dse/clib/collections/hashlist.h and the 32-bit accessors of hashmap.h, on tables. */
module HashLists {
  import opened Widths
  import opened Probing
  import opened HashMaps
  import opened Decimals

  /** The map entry under which a list stores its i-th element. */
  type Keys = nat -> Id

  function KeysOf(hash: Hash): Keys {
    (i: nat) => var k := ListKey(i % TWO_32); (k, hash(k))
  }

  /** What a list relies on: the first 2^31 + 1 positions have keys of their own, the next one does not. */
  ghost predicate ListKeys(key: Keys) {
    && (forall i: nat, j: nat :: i < j <= TWO_31 ==> key(i) != key(j))
    && key(TWO_31) == key(TWO_31 + 1)
  }

  lemma KeysOfAreListKeys(hash: Hash)
    ensures ListKeys(KeysOf(hash))
  {
    var key := KeysOf(hash);
    forall i: nat, j: nat | i < j <= TWO_31 ensures key(i) != key(j) {
      KeysOfDiffer(hash, i, j);
    }
    KeyOfPosition(hash, TWO_31);
    KeyOfPosition(hash, TWO_31 + 1);
    ListKeysCollide();
  }

  lemma KeyOfPosition(hash: Hash, i: nat)
    requires i < TWO_32
    ensures KeysOf(hash)(i) == (ListKey(i), hash(ListKey(i)))
  {
    assert i % TWO_32 == i;
  }

  lemma KeysOfDiffer(hash: Hash, i: nat, j: nat)
    requires i < j <= TWO_31
    ensures KeysOf(hash)(i) != KeysOf(hash)(j)
  {
    KeyOfPosition(hash, i);
    KeyOfPosition(hash, j);
    ListKeysDiffer(i, j);
  }

  /** hashlist_length: the counter, as a uint32_t. */
  function Length(s: MapState): nat {
    s.used % TWO_32
  }

  lemma LengthIsUsed(used: nat)
    requires used <= CAPACITY
    ensures used % TWO_32 == used
  {
  }

  /** hashlist_append; a NULL value is ignored. */
  function Append(s: MapState, key: Keys, ref: nat): (s': MapState)
    requires |s.t| > 0
    ensures |s'.t| > 0
  {
    if ref == NULL then s else PutIn(s, key(Length(s)), ref, false).0
  }

  /** hashlist_at. */
  function At(s: MapState, key: Keys, i: nat): nat
    requires |s.t| > 0 && i < TWO_32
  {
    GetFrom(s.t, key(i))
  }

  function AppendAll(s: MapState, key: Keys, refs: seq<nat>): (s': MapState)
    requires |s.t| > 0
    ensures |s'.t| > 0
  {
    if refs == [] then s else Append(AppendAll(s, key, refs[..|refs| - 1]), key, refs[|refs| - 1])
  }

  /** What hashlist_ntl builds: for every position in order a copy of the object its pointer leads to, then a
      zeroed object; a position without a pointer is left zero. */
  ghost predicate Copies<T>(s: MapState, key: Keys, contents: nat -> T, zero: T, a: seq<T>)
    requires |s.t| > 0
  {
    && |a| == Length(s) + 1
    && (forall i: nat :: i < Length(s) ==> a[i] == ObjectAt(contents, zero, At(s, key, i)))
    && a[Length(s)] == zero
  }

  function ObjectAt<T>(contents: nat -> T, zero: T, ref: nat): T {
    if ref == NULL then zero else contents(ref)
  }

  // ---- refinement ----

  /** The most elements a list can hold: with one more, two positions would share a key. */
  const CAPACITY: nat := TWO_31 + 1

  /** One map entry for each position of e, and nothing else. */
  ghost predicate Lists(m: map<Id, Value>, key: Keys, e: seq<nat>)
    requires |e| <= CAPACITY
  {
    && (forall i: nat :: i < |e| ==> key(i) in m && m[key(i)].ref == e[i])
    && (forall id :: id in m ==> exists i: nat :: i < |e| && id == key(i))
  }

  /** The list holds the sequence e. */
  ghost predicate Represents(s: MapState, key: Keys, e: seq<nat>) {
    && Healthy(s) && Counted(s) && s.used == |e| <= CAPACITY
    && Lists(Model(s.t), key, e)
    && NULL !in e
  }

  /** What is left of the appended values: from the last position on, each overwrites the one before. */
  function Kept(refs: seq<nat>): (e: seq<nat>)
    ensures |e| == if |refs| <= CAPACITY then |refs| else CAPACITY
  {
    if |refs| <= CAPACITY then refs else refs[..CAPACITY - 1] + [refs[|refs| - 1]]
  }

  lemma KeptGrows(refs: seq<nat>)
    requires refs != []
    ensures var k := |refs| - 1; var e := Kept(refs[..k]);
            Kept(refs) == if k < CAPACITY then e + [refs[k]] else e[CAPACITY - 1 := refs[k]]
  {
    var k := |refs| - 1;
    assert refs == refs[..k] + [refs[k]];
    assert k >= CAPACITY ==> refs[..k][..CAPACITY - 1] == refs[..CAPACITY - 1];
  }

  lemma ListsAppended(m: map<Id, Value>, key: Keys, e: seq<nat>, v: Value)
    requires ListKeys(key) && |e| < CAPACITY && Lists(m, key, e)
    ensures key(|e|) !in m
    ensures Lists(m[key(|e|) := v], key, e + [v.ref])
  {
    var m', e' := m[key(|e|) := v], e + [v.ref];
    forall id | id in m' ensures exists i: nat :: i < |e'| && id == key(i) {
      if id in m {
        var i: nat :| i < |e| && id == key(i);
        assert i < |e'|;
      } else {
        assert |e| < |e'| && id == key(|e|);
      }
    }
  }

  lemma ListsReplaced(m: map<Id, Value>, key: Keys, e: seq<nat>, k: nat, v: Value)
    requires ListKeys(key) && k < |e| <= CAPACITY && Lists(m, key, e)
    ensures Lists(m[key(k) := v], key, e[k := v.ref])
  {
    forall i: nat | i < |e| && i != k ensures key(i) != key(k) {
      assert if i < k then key(i) != key(k) else key(k) != key(i);
    }
  }

  lemma AppendWithin(s: MapState, key: Keys, e: seq<nat>, ref: nat)
    requires ListKeys(key) && Represents(s, key, e) && ref != NULL && |e| < CAPACITY
    ensures Represents(Append(s, key, ref), key, e + [ref])
  {
    var id := key(|e|);
    ListsAppended(Model(s.t), key, e, Value(ref, false));
    PutKept(s, key, e, id, ref, e + [ref]);
    LengthIsUsed(s.used);
  }

  /** A put that turns the listing of e into the listing of e'. */
  lemma PutKept(s: MapState, key: Keys, e: seq<nat>, id: Id, ref: nat, e': seq<nat>)
    requires Represents(s, key, e) && |e'| <= CAPACITY && NULL !in e'
    requires id in Model(s.t) ==> Model(s.t)[id].ref != NULL
    requires |e'| == if id in Model(s.t) then |e| else |e| + 1
    requires Lists(Model(s.t)[id := Value(ref, id in Model(s.t) && Model(s.t)[id].owned)], key, e')
    ensures Represents(PutIn(s, id, ref, false).0, key, e')
  {
    PutRefines(s, id, ref, false);
    CountAfterPut(s, id, ref);
    var m' := Model(PutIn(s, id, ref, false).0.t);
    assert m' == Model(s.t)[id := Value(ref, id in Model(s.t) && Model(s.t)[id].owned)];
  }

  /** The counter after a put that keeps it exact. */
  lemma CountAfterPut(s: MapState, id: Id, ref: nat)
    requires Healthy(s) && Counted(s) && (id in Model(s.t) ==> Model(s.t)[id].ref != NULL)
    ensures var s' := PutIn(s, id, ref, false).0;
            Counted(s') && s'.used == if id in Model(s.t) then s.used else s.used + 1
  {
    PutRefines(s, id, ref, false);
  }

  lemma AppendBeyond(s: MapState, key: Keys, e: seq<nat>, ref: nat)
    requires ListKeys(key) && Represents(s, key, e) && ref != NULL && |e| == CAPACITY
    ensures Represents(Append(s, key, ref), key, e[|e| - 1 := ref])
  {
    var k := |e| - 1;
    var id := key(k);
    assert e[k] in e;
    ListsReplaced(Model(s.t), key, e, k, Value(ref, Model(s.t)[id].owned));
    PutKept(s, key, e, id, ref, e[k := ref]);
    LengthIsUsed(s.used);
  }

  lemma EmptyList(n: nat, key: Keys)
    requires n > 0
    ensures Represents(Empty(n), key, [])
  {
    EmptyIsHealthy(n);
    assert Lists(map[], key, []);
  }

  lemma {:induction false} AppendsAreKept(n: nat, key: Keys, refs: seq<nat>)
    requires ListKeys(key) && n > 0 && NULL !in refs
    ensures Represents(AppendAll(Empty(n), key, refs), key, Kept(refs))
    decreases |refs|
  {
    if refs == [] {
      EmptyList(n, key);
    } else {
      var k := |refs| - 1;
      AppendsAreKept(n, key, refs[..k]);
      AppendStep(AppendAll(Empty(n), key, refs[..k]), key, Kept(refs[..k]), refs[k]);
      KeptGrows(refs);
    }
  }

  /** The values that append does not ignore. */
  function NonNull(refs: seq<nat>): (r: seq<nat>)
    ensures NULL !in r
  {
    if refs == [] then []
    else NonNull(refs[..|refs| - 1]) + (if refs[|refs| - 1] == NULL then [] else [refs[|refs| - 1]])
  }

  lemma {:induction false} NullsAreIgnored(s: MapState, key: Keys, refs: seq<nat>)
    requires |s.t| > 0
    ensures AppendAll(s, key, refs) == AppendAll(s, key, NonNull(refs))
    decreases |refs|
  {
    if refs != [] {
      var k := |refs| - 1;
      NullsAreIgnored(s, key, refs[..k]);
      var r := NonNull(refs[..k]);
      assert (r + [refs[k]])[..|r|] == r && r + [] == r;
    }
  }

  /** After any appends, across all growths, the list holds exactly the kept values among those that are not
      NULL: all of them, in order, if there were no more than 2^31 + 1.  Its length is their number exactly then. */
  lemma ListRefinesSequence(n: nat, hash: Hash, refs: seq<nat>)
    requires n > 0
    ensures var s, e := AppendAll(Empty(n), KeysOf(hash), refs), NonNull(refs);
            && Represents(s, KeysOf(hash), Kept(e))
            && (Length(s) == |e| <==> |e| <= CAPACITY)
  {
    KeysOfAreListKeys(hash);
    NullsAreIgnored(Empty(n), KeysOf(hash), refs);
    AppendsAreKept(n, KeysOf(hash), NonNull(refs));
    LengthIsUsed(AppendAll(Empty(n), KeysOf(hash), refs).used);
  }

  lemma AppendStep(s: MapState, key: Keys, e: seq<nat>, ref: nat)
    requires ListKeys(key) && Represents(s, key, e) && ref != NULL
    ensures Represents(Append(s, key, ref), key, if |e| < CAPACITY then e + [ref] else e[CAPACITY - 1 := ref])
  {
    if |e| < CAPACITY {
      AppendWithin(s, key, e, ref);
    } else {
      AppendBeyond(s, key, e, ref);
    }
  }

  /** hashlist_at on a list that holds e, for any index: the element of the position whose key the index has,
      if there is one. */
  lemma AtByKey(s: MapState, key: Keys, e: seq<nat>, i: nat)
    requires Represents(s, key, e) && i < TWO_32
    ensures forall j: nat :: j < |e| && key(j) == key(i) ==> At(s, key, i) == e[j]
    ensures (forall j: nat :: j < |e| ==> key(j) != key(i)) ==> At(s, key, i) == NULL
  {
    GetRefines(s.t, key(i));
  }

  /** So for an index up to 2^31, which shares its key with no other: the element of this position, NULL behind
      the last. */
  lemma AtRefines(s: MapState, key: Keys, e: seq<nat>, i: nat)
    requires Represents(s, key, e) && i <= TWO_31 && ListKeys(key)
    ensures At(s, key, i) == if i < |e| then e[i] else NULL
  {
    AtByKey(s, key, e, i);
    assert i >= |e| ==> forall j: nat :: j < |e| ==> key(j) != key(i);
  }

  /** The objects that e leads to, and the zeroed one behind them. */
  function Objects<T>(e: seq<nat>, contents: nat -> T, zero: T): (a: seq<T>)
    ensures |a| == |e| + 1
  {
    seq(|e|, i requires 0 <= i < |e| => contents(e[i])) + [zero]
  }

  /** hashlist_ntl of a list that holds e yields exactly the objects of e in order, terminated. */
  lemma NtlRefines<T>(s: MapState, key: Keys, e: seq<nat>, contents: nat -> T, zero: T, a: seq<T>)
    requires ListKeys(key) && Represents(s, key, e) && Copies(s, key, contents, zero, a)
    ensures a == Objects(e, contents, zero)
  {
    LengthIsUsed(s.used);
    forall i: nat | i < |e| ensures ObjectAt(contents, zero, At(s, key, i)) == contents(e[i]) {
      AtRefines(s, key, e, i);
      assert e[i] in e;
    }
    TerminatedAlike(a, Objects(e, contents, zero), |e|);
  }

  lemma TerminatedAlike<T>(a: seq<T>, b: seq<T>, n: nat)
    requires |a| == |b| == n + 1 && a[n] == b[n] && forall i: nat :: i < n ==> a[i] == b[i]
    ensures a == b
  {
  }

  // ---- 32-bit keys ----

  /** hashmap_set_by_hash32: the digits as key, the 32 bits doubled as hash. */
  function Hash32Id(h: nat): Id
    requires h < TWO_32
  {
    (Decimal(h), h + h * TWO_32)
  }

  /** A value set under a 32-bit hash is the one read back, and no other 32-bit hash sees it. */
  lemma Hash32RoundTrip(s: MapState, h: nat, ref: nat, owned: bool, h': nat)
    requires Healthy(s) && h < TWO_32 && h' < TWO_32
    ensures GetFrom(PutIn(s, Hash32Id(h), ref, owned).0.t, Hash32Id(h'))
         == if h' == h then ref else GetFrom(s.t, Hash32Id(h'))
  {
    GetAfterPut(s, Hash32Id(h), ref, owned, Hash32Id(h'));
  }

  lemma GetAfterPut(s: MapState, id: Id, ref: nat, owned: bool, id': Id)
    requires Healthy(s)
    ensures GetFrom(PutIn(s, id, ref, owned).0.t, id') == if id' == id then ref else GetFrom(s.t, id')
  {
    PutRefines(s, id, ref, owned);
    GetRefines(PutIn(s, id, ref, owned).0.t, id');
    GetRefines(s.t, id');
  }

  /** A string lookup of the digits sees a value set under a 32-bit hash exactly if the string hash of the digits
      happens to be that doubled hash; otherwise it sees what it saw before. */
  lemma Hash32SeenByString(s: MapState, hash: Hash, h: nat, ref: nat, owned: bool)
    requires Healthy(s) && h < TWO_32
    ensures var id := (Decimal(h), hash(Decimal(h)));
            var after := GetFrom(PutIn(s, Hash32Id(h), ref, owned).0.t, id);
            && after == (if hash(Decimal(h)) == h + h * TWO_32 then ref else GetFrom(s.t, id))
            && (GetFrom(s.t, id) != ref ==> (after == ref <==> hash(Decimal(h)) == h + h * TWO_32))
  {
    GetAfterPut(s, Hash32Id(h), ref, owned, (Decimal(h), hash(Decimal(h))));
  }
}
