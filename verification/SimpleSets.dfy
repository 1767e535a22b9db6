/** The string set of dse/clib/collections/set.c. */
module SimpleSets {
  import opened Widths
  import opened Probing
  import opened Relayout
  import opened Backshift

  datatype Rc = SetTrue | SetFalse | CircularError | OccupiedError | AlreadyPresent
  datatype Cmp = RightGreater | LeftGreater | Equal | Unequal

  type SetTable = Table<()>

  /** nodes and used_nodes; number_nodes is the length of nodes. */
  datatype SetState = SetState(t: SetTable, used: nat)

  function Entry(id: Id): Slot<()> {
    Used(Node(id.0, id.1, ()))
  }

  /** set_init_alt. */
  function Empty(n: nat): SetState {
    SetState(Frees(n), 0)
  }

  function ContainsIn(t: SetTable, id: Id): Rc
    requires |t| > 0
  {
    match Find(t, id)
    case Found(_) => SetTrue
    case Vacant(_) => SetFalse
    case Circular => CircularError
  }

  /** The expansion in __set_add: used_nodes / number_nodes > 0.25, as an integer inequality. */
  function Expanded(s: SetState): (t: SetTable)
    ensures |s.t| > 0 ==> |t| > 0
  {
    if 4 * s.used > |s.t| then Grown(s.t) else s.t
  }

  /** __set_add. */
  function AddTo(s: SetState, id: Id): (r: (SetState, Rc))
    requires |s.t| > 0
    ensures |r.0.t| > 0
  {
    if Find(s.t, id).Found? then (s, AlreadyPresent)
    else
      var g := Expanded(s);
      match Find(g, id)
      case Vacant(i) => (SetState(g[i := Entry(id)], s.used + 1), SetTrue)
      case Found(_) => (SetState(g, s.used), SetTrue)
      case Circular => (SetState(g, s.used), CircularError)
  }

  /** set_remove. */
  function RemoveFrom(s: SetState, id: Id): (r: (SetState, Rc))
    requires |s.t| > 0
    ensures |r.0.t| > 0
  {
    match Find(s.t, id)
    case Found(i) => (SetState(Removed(s.t, i), if s.used > 0 then s.used - 1 else MAX_COUNT), SetTrue)
    case Vacant(_) => (s, SetFalse)
    case Circular => (s, CircularError)
  }

  // ---- what the table means ----

  ghost predicate Coherent(t: SetTable, hash: Hash) {
    forall i: nat :: i < |t| && t[i].Used? ==> t[i].node.hash == hash(t[i].node.key)
  }

  ghost predicate Healthy(s: SetState, hash: Hash) {
    && |s.t| > 0 && Ok(s.t) && Coherent(s.t, hash)
    && s.used == |Occupied(s.t)|
  }

  ghost function KeysOf(ids: set<Id>): set<string> {
    set id | id in ids :: id.0
  }

  ghost function Members(t: SetTable): set<string> {
    KeysOf(Ids(t))
  }

  lemma MemberIffStored(t: SetTable, hash: Hash, key: string)
    requires Coherent(t, hash)
    ensures key in Members(t) <==> (key, hash(key)) in Ids(t)
  {
    if key in Members(t) {
      var id :| id in Ids(t) && id.0 == key;
      var i := SlotOf(t, id);
      assert t[i].node.hash == hash(key);
    }
    if (key, hash(key)) in Ids(t) {
      var id := (key, hash(key));
      assert id in Ids(t) && id.0 == key;
    }
  }

  lemma {:induction false} KeysOfSize(ids: set<Id>, hash: Hash)
    requires forall id :: id in ids ==> id.1 == hash(id.0)
    ensures |KeysOf(ids)| == |ids|
    decreases ids
  {
    if ids == {} {
      assert KeysOf(ids) == {};
    } else {
      var y :| y in ids;
      KeysOfSize(ids - {y}, hash);
      assert KeysOf(ids) == KeysOf(ids - {y}) + {y.0};
      assert y.0 !in KeysOf(ids - {y});
    }
  }

  /** used_nodes counts the members. */
  lemma UsedIsSize(s: SetState, hash: Hash)
    requires Healthy(s, hash)
    ensures s.used == |Members(s.t)| == |Ids(s.t)|
  {
    SizesAgree(s.t);
    assert |Model(s.t)| == |Model(s.t).Keys|;
    forall id | id in Ids(s.t) ensures id.1 == hash(id.0) {
      var i := SlotOf(s.t, id);
    }
    KeysOfSize(Ids(s.t), hash);
  }

  lemma CoherentFromIds(t: SetTable, u: SetTable, hash: Hash)
    requires Coherent(t, hash) && Ids(u) <= Ids(t)
    ensures Coherent(u, hash)
  {
    forall i: nat | i < |u| && u[i].Used? ensures u[i].node.hash == hash(u[i].node.key) {
      assert IdOf(u[i].node) in Ids(t);
      var j := SlotOf(t, IdOf(u[i].node));
    }
  }

  /** A healthy set answers membership; only an absent key of a full table gives the circular error. */
  lemma ContainsIsMembership(s: SetState, hash: Hash, key: string)
    requires Healthy(s, hash)
    ensures ContainsIn(s.t, (key, hash(key))) == SetTrue <==> key in Members(s.t)
    ensures ContainsIn(s.t, (key, hash(key))) == CircularError <==>
              key !in Members(s.t) && forall i: nat :: i < |s.t| ==> s.t[i].Used?
  {
    MemberIffStored(s.t, hash, key);
    LookupIsModel(s.t, (key, hash(key)));
  }

  /** Expansion keeps the contents, leaves a free slot, and repairs any arrangement it doubles. */
  lemma ExpandedHasRoom(s: SetState, hash: Hash)
    requires Healthy(s, hash)
    ensures var g := Expanded(s);
            && Healthy(SetState(g, s.used), hash) && Ids(g) == Ids(s.t)
            && |Occupied(g)| < |g|
  {
    OnePassSuffices(s.t);
    SizesAgree(s.t);
    assert Ids(Expanded(s)) == Model(Expanded(s)).Keys == Ids(s.t);
    CoherentFromIds(s.t, Expanded(s), hash);
  }

  lemma StoreNewKey(s: SetState, hash: Hash, key: string)
    requires Healthy(s, hash) && |Occupied(s.t)| < |s.t| && (key, hash(key)) !in Ids(s.t)
    ensures var id := (key, hash(key)); var r := Find(s.t, id);
            && r.Vacant?
            && Healthy(SetState(s.t[r.i := Entry(id)], s.used + 1), hash)
            && Ids(s.t[r.i := Entry(id)]) == Ids(s.t) + {id}
  {
    var id := (key, hash(key));
    LookupIsModel(s.t, id);
    RoomIsVacant(s.t, id);
    var i := Find(s.t, id).i;
    InsertKeepsOk(s.t, Entry(id).node);
    StoreCounts(s.t, hash, key, i);
    IdsAreKeys(s.t);
    IdsAreKeys(s.t[i := Entry(id)]);
  }

  lemma StoreCounts(t: SetTable, hash: Hash, key: string, i: nat)
    requires i < |t| && t[i].Free? && Coherent(t, hash)
    ensures var u := t[i := Entry((key, hash(key)))]; Coherent(u, hash) && |Occupied(u)| == |Occupied(t)| + 1
  {
    assert Occupied(t[i := Entry((key, hash(key)))]) == Occupied(t) + {i};
  }

  lemma IdsAreKeys(t: SetTable)
    requires Distinct(t)
    ensures Ids(t) == Model(t).Keys
  {
  }

  lemma KeysOfUnion(a: set<Id>, id: Id)
    ensures KeysOf(a + {id}) == KeysOf(a) + {id.0}
  {
    assert id in a + {id};
    forall k | k in KeysOf(a) ensures k in KeysOf(a + {id}) {
      var x :| x in a && x.0 == k;
      assert x in a + {id};
    }
  }

  /** Adding to a healthy set, through any growth: the set gains exactly the key, the circular error
      cannot occur, and the table stays healthy. */
  lemma AddRefines(s: SetState, hash: Hash, key: string)
    requires Healthy(s, hash)
    ensures var (s', rc) := AddTo(s, (key, hash(key)));
            && Healthy(s', hash)
            && Members(s'.t) == Members(s.t) + {key}
            && rc == (if key in Members(s.t) then AlreadyPresent else SetTrue)
  {
    var id := (key, hash(key));
    MemberIffStored(s.t, hash, key);
    LookupIsModel(s.t, id);
    if key !in Members(s.t) {
      ExpandedHasRoom(s, hash);
      StoreNewKey(SetState(Expanded(s), s.used), hash, key);
      KeysOfUnion(Ids(s.t), id);
    } else {
      assert Members(s.t) == Members(s.t) + {key};
    }
  }

  lemma RemoveStored(s: SetState, hash: Hash, key: string)
    requires Healthy(s, hash) && key in Members(s.t)
    ensures var id := (key, hash(key)); var r := Find(s.t, id); var s' := RemoveFrom(s, id).0;
            && r.Found? && s'.t == Removed(s.t, r.i) && s'.used + 1 == s.used
            && Ids(s'.t) == Ids(s.t) - {id} && Distinct(s'.t) && s'.used == |Occupied(s'.t)|
            && (AllFound(s'.t) <==> BarrierFrom(s.t, r.i))
  {
    var id := (key, hash(key));
    MemberIffStored(s.t, hash, key);
    LookupIsModel(s.t, id);
    var i := Find(s.t, id).i;
    RemovalExact(s.t, i);
    assert i in Occupied(s.t);
    assert Ids(Removed(s.t, i)) == Model(Removed(s.t, i)).Keys == Ids(s.t) - {id};
  }

  lemma KeysOfDifference(t: SetTable, u: SetTable, hash: Hash, key: string)
    requires Coherent(t, hash) && Ids(u) == Ids(t) - {(key, hash(key))}
    ensures Coherent(u, hash) && Members(u) == Members(t) - {key}
  {
    CoherentFromIds(t, u, hash);
    forall k {:trigger k in Members(t)} {:trigger k in Members(u)}
      ensures k in Members(u) <==> k in Members(t) && k != key
    {
      MemberIffStored(t, hash, k);
      MemberIffStored(u, hash, k);
    }
  }

  /** Removing from a healthy set: the set loses exactly the key, and it stays healthy exactly if the
      slot that is freed has a barrier at or above it. */
  lemma RemoveRefines(s: SetState, hash: Hash, key: string)
    requires Healthy(s, hash)
    ensures var (s', rc) := RemoveFrom(s, (key, hash(key)));
            && (rc == SetTrue <==> key in Members(s.t))
            && Coherent(s'.t, hash) && Members(s'.t) == Members(s.t) - {key}
            && Distinct(s'.t) && s'.used == |Occupied(s'.t)|
            && (AllFound(s'.t) <==> Healthy(s', hash))
            && (AllFound(s'.t) <==> RemovalGuarded(s, (key, hash(key))))
  {
    var id := (key, hash(key));
    MemberIffStored(s.t, hash, key);
    LookupIsModel(s.t, id);
    var u := RemoveFrom(s, id).0;
    if key in Members(s.t) {
      RemoveStored(s, hash, key);
      KeysOfDifference(s.t, u.t, hash, key);
    }
    OkIsAllFound(u.t);
  }

  /** The answer of a removal: true for a member, false for a key that is not stored in a table with a free slot, and
      the circular error for one in a full table; without a member nothing changes. */
  lemma RemoveAnswers(s: SetState, hash: Hash, key: string)
    requires Healthy(s, hash)
    ensures var (s', rc) := RemoveFrom(s, (key, hash(key))); var free := exists i: nat :: i < |s.t| && s.t[i].Free?;
            && (rc == SetTrue <==> key in Members(s.t))
            && (rc == SetFalse <==> key !in Members(s.t) && free)
            && (rc == CircularError <==> key !in Members(s.t) && !free)
            && |s'.t| == |s.t| && (rc != SetTrue ==> s' == s)
  {
    ContainsIsMembership(s, hash, key);
  }

  /** The table doubles exactly when a key is new and more than a quarter of the slots are taken. */
  lemma AddGrows(s: SetState, hash: Hash, key: string)
    requires Healthy(s, hash)
    ensures |AddTo(s, (key, hash(key))).0.t|
         == if key !in Members(s.t) && 4 * |Members(s.t)| > |s.t| then 2 * |s.t| else |s.t|
  {
    MemberIffStored(s.t, hash, key);
    LookupIsModel(s.t, (key, hash(key)));
    UsedIsSize(s, hash);
  }

  /** If the entry is stored, the slot its removal frees has a barrier at or above it. */
  ghost predicate RemovalGuarded(s: SetState, id: Id)
    requires |s.t| > 0
  {
    Find(s.t, id).Found? ==> BarrierFrom(s.t, Find(s.t, id).i)
  }

  // ---- whole runs ----

  datatype Op = Add(key: string) | Remove(key: string)

  function Apply(s: SetState, hash: Hash, op: Op): (s': SetState)
    requires |s.t| > 0
    ensures |s'.t| > 0
  {
    match op
    case Add(key) => AddTo(s, (key, hash(key))).0
    case Remove(key) => RemoveFrom(s, (key, hash(key))).0
  }

  function Run(s: SetState, hash: Hash, ops: seq<Op>): SetState
    requires |s.t| > 0
    decreases |ops|
  {
    if ops == [] then s else Run(Apply(s, hash, ops[0]), hash, ops[1..])
  }

  /** The mathematical set after the same operations. */
  function RunSet(m: set<string>, ops: seq<Op>): set<string>
    decreases |ops|
  {
    if ops == [] then m
    else RunSet(match ops[0] case Add(k) => m + {k} case Remove(k) => m - {k}, ops[1..])
  }

  /** Every removal of a stored key in the run has a barrier at or above the slot it frees. */
  ghost predicate RemovalsGuarded(s: SetState, hash: Hash, ops: seq<Op>)
    requires |s.t| > 0
    decreases |ops|
  {
    ops != [] ==>
      && (ops[0].Remove? ==> RemovalGuarded(s, (ops[0].key, hash(ops[0].key))))
      && RemovalsGuarded(Apply(s, hash, ops[0]), hash, ops[1..])
  }

  /** Every entry is findable at every point of the run. */
  ghost predicate AlwaysFound(s: SetState, hash: Hash, ops: seq<Op>)
    requires |s.t| > 0
    decreases |ops|
  {
    AllFound(s.t) && (ops != [] ==> AlwaysFound(Apply(s, hash, ops[0]), hash, ops[1..]))
  }

  /** Any run from a healthy set keeps every stored entry findable throughout exactly if its removals
      are guarded, and then it computes the mathematical set and its size. */
  lemma {:induction false} RunRefinesSet(s: SetState, hash: Hash, ops: seq<Op>)
    requires Healthy(s, hash)
    ensures AlwaysFound(s, hash, ops) <==> RemovalsGuarded(s, hash, ops)
    ensures RemovalsGuarded(s, hash, ops) ==>
              var e := Run(s, hash, ops);
              Healthy(e, hash) && Members(e.t) == RunSet(Members(s.t), ops) && e.used == |Members(e.t)|
    decreases |ops|
  {
    OkIsAllFound(s.t);
    UsedIsSize(s, hash);
    if ops != [] {
      var s' := Apply(s, hash, ops[0]);
      var key := ops[0].key;
      ContainsIsMembership(s, hash, key);
      if ops[0].Add? {
        AddRefines(s, hash, key);
      } else {
        RemoveRefines(s, hash, key);
      }
      if Healthy(s', hash) {
        RunRefinesSet(s', hash, ops[1..]);
      }
    }
  }

  /** No table that set_init_alt makes for two or more elements is ever filled. */
  ghost predicate Light(s: SetState) {
    |s.t| >= 2 && 4 * s.used <= |s.t| + 4
  }

  lemma AddStaysLight(s: SetState, hash: Hash, key: string)
    requires Healthy(s, hash) && Light(s)
    ensures Light(AddTo(s, (key, hash(key))).0)
  {
  }

  lemma RemoveStaysLight(s: SetState, hash: Hash, key: string)
    requires Healthy(s, hash) && Light(s)
    ensures Light(RemoveFrom(s, (key, hash(key))).0)
  {
    if Find(s.t, (key, hash(key))).Found? {
      assert Find(s.t, (key, hash(key))).i in Occupied(s.t);
    }
  }

  lemma {:induction false} RunStaysLight(s: SetState, hash: Hash, ops: seq<Op>)
    requires Healthy(s, hash) && Light(s) && RemovalsGuarded(s, hash, ops)
    ensures Healthy(Run(s, hash, ops), hash) && Light(Run(s, hash, ops))
    decreases |ops|
  {
    if ops != [] {
      var key := ops[0].key;
      if ops[0].Add? {
        AddRefines(s, hash, key);
        AddStaysLight(s, hash, key);
      } else {
        RemoveRefines(s, hash, key);
        RemoveStaysLight(s, hash, key);
      }
      RunStaysLight(Apply(s, hash, ops[0]), hash, ops[1..]);
    }
  }

  /** A guarded run from an empty table of two or more slots never reaches a full one. */
  lemma NeverFull(n: nat, hash: Hash, ops: seq<Op>)
    requires n >= 2 && RemovalsGuarded(Empty(n), hash, ops)
    ensures exists i: nat :: i < |Run(Empty(n), hash, ops).t| && Run(Empty(n), hash, ops).t[i].Free?
  {
    EmptyIsHealthy(n, hash);
    RunStaysLight(Empty(n), hash, ops);
    var e := Run(Empty(n), hash, ops);
    if forall i: nat :: i < |e.t| ==> e.t[i].Used? {
      assert Occupied(e.t) == Interval(0, |e.t|);
      IntervalSize(0, |e.t|);
    }
  }

  lemma EmptyIsHealthy(n: nat, hash: Hash)
    requires n > 0
    ensures Healthy(Empty(n), hash) && Members(Empty(n).t) == {}
  {
    assert Occupied(Empty(n).t) == {};
    assert Ids(Empty(n).t) == {};
  }

  /** A removal without a barrier, in a table of any size from 4 on: two keys share the last slot as their
      home, so the second wraps to slot 0; once the first is removed the second is stored but not found. */
  lemma UnguardedRemovalLosesKey(n: nat, hash: Hash)
    requires n >= 4 && hash("a") % n == n - 1 && hash("b") % n == n - 1
    ensures var s := Run(Empty(n), hash, [Add("a"), Add("b"), Remove("a")]);
            Members(s.t) == {"b"} && s.used == 1 && ContainsIn(s.t, ("b", hash("b"))) == SetFalse
  {
    var a, b := ("a", hash("a")), ("b", hash("b"));
    EntryWraps(n, Entry(a).node, Entry(b).node);
    WrappedEntryIsLost(n, Entry(a).node, Entry(b).node);
    EmptyIsHealthy(n, hash);
    AddRefines(Empty(n), hash, "a");
    var s1 := SetState(Frees(n)[n - 1 := Entry(a)], 1);
    assert AddTo(Empty(n), a).0 == s1;
    AddRefines(s1, hash, "b");
    var s2 := SetState(s1.t[0 := Entry(b)], 2);
    assert AddTo(s1, b).0 == s2;
    assert Members(s2.t) == {"a", "b"};
    SecondIsLost(s2, hash, n - 1, "a", "b");
    RunOfThree(Empty(n), hash, Add("a"), Add("b"), Remove("a"));
  }

  lemma SecondIsLost(s: SetState, hash: Hash, last: nat, a: string, b: string)
    requires Healthy(s, hash) && s.used == 2 && a != b && Members(s.t) == {a, b}
    requires Find(s.t, (a, hash(a))) == Found(last)
    requires Removed(s.t, last) == s.t[last := Free] && Find(s.t[last := Free], (b, hash(b))).Vacant?
    ensures var e := Apply(s, hash, Remove(a));
            Members(e.t) == {b} && e.used == 1 && ContainsIn(e.t, (b, hash(b))) == SetFalse
  {
    RemoveRefines(s, hash, a);
  }

  lemma RunOfThree(s: SetState, hash: Hash, x: Op, y: Op, z: Op)
    requires |s.t| > 0
    ensures Run(s, hash, [x, y, z]) == Apply(Apply(Apply(s, hash, x), hash, y), hash, z)
  {
    assert [x, y, z][1..] == [y, z] && [y, z][1..] == [z] && [z][1..] == [];
    var s1 := Apply(s, hash, x);
    var s2 := Apply(s1, hash, y);
    assert Run(s1, hash, [y, z]) == Run(s2, hash, [z]) == Run(Apply(s2, hash, z), hash, []);
  }
}
