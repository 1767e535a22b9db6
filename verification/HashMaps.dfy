/** The string-keyed map of dse/clib/collections/hashmap.c, on tables. */
module HashMaps {
  import opened Widths
  import opened Probing
  import opened Relayout
  import opened Backshift
  import opened Displacement

  const NULL: nat := 0

  /** A stored value pointer; `owned` when the map frees it (mallocd == 0). */
  datatype Value = Value(ref: nat, owned: bool)
  type MapTable = Table<Value>

  /** nodes and used_nodes; number_nodes is the length of nodes. */
  datatype MapState = MapState(t: MapTable, used: nat)

  function Empty(n: nat): MapState {
    MapState(Frees(n), 0)
  }

  function Entry(id: Id, v: Value): Slot<Value> {
    Used(Node(id.0, id.1, v))
  }

  /** The expansion in hashmap_set_by_hash64: used_nodes / number_nodes >= 0.25, as an integer inequality. */
  function Expanded(s: MapState): (t: MapTable)
    ensures |s.t| > 0 ==> |t| > 0
  {
    if 4 * s.used >= |s.t| then Stabilised(s.t + Frees(|s.t|)) else s.t
  }

  /** hashmap_get_node's result: the value pointer, NULL when nothing is found. */
  function GetFrom(t: MapTable, id: Id): nat
    requires |t| > 0
  {
    var r := Find(t, id);
    if r.Found? then t[r.i].node.value.ref else NULL
  }

  /** hashmap_set_by_hash64.  An entry whose stored pointer is NULL is taken for a free place. */
  function PutIn(s: MapState, id: Id, ref: nat, owned: bool): (r: (MapState, nat))
    requires |s.t| > 0
    ensures |r.0.t| > 0
  {
    var g := Expanded(s);
    var r := Find(g, id);
    if r.Circular? then (MapState(g, s.used), NULL)
    else if r.Found? && g[r.i].node.value.ref != NULL then
      var was := g[r.i].node.value;
      (MapState(g[r.i := Used(g[r.i].node.(value := was.(ref := ref)))], s.used), if was.owned then ref else was.ref)
    else (MapState(g[r.i := Entry(id, Value(ref, owned))], s.used + 1), ref)
  }

  /** hashmap_remove. */
  function RemoveFrom(s: MapState, id: Id): (r: (MapState, nat))
    requires |s.t| > 0
    ensures |r.0.t| > 0
  {
    var r := Find(s.t, id);
    if r.Found? && s.t[r.i].node.value.ref != NULL then
      var v := s.t[r.i].node.value;
      (MapState(Removed(s.t, r.i), if s.used > 0 then s.used - 1 else MAX_COUNT), if v.owned then NULL else v.ref)
    else (s, NULL)
  }

  // ---- what the table means ----

  /** used_nodes never falls below the number of entries nor above the number of slots. */
  ghost predicate Healthy(s: MapState) {
    |s.t| > 0 && Ok(s.t) && |Occupied(s.t)| <= s.used <= |s.t|
  }

  /** The counter is exact. */
  ghost predicate Counted(s: MapState) {
    s.used == |Occupied(s.t)|
  }

  /** The entry's key is stored with a pointer that is not NULL. */
  ghost predicate Present(t: MapTable, id: Id)
    requires Distinct(t)
  {
    id in Model(t) && Model(t)[id].ref != NULL
  }

  lemma EmptyIsHealthy(n: nat)
    requires n > 0
    ensures Healthy(Empty(n)) && Counted(Empty(n)) && Model(Empty(n).t) == map[]
  {
    assert Occupied(Empty(n).t) == {};
    assert Ids(Empty(n).t) == {};
  }

  lemma GetRefines(t: MapTable, id: Id)
    requires |t| > 0 && Ok(t)
    ensures GetFrom(t, id) == if id in Model(t) then Model(t)[id].ref else NULL
  {
    LookupIsModel(t, id);
  }

  /** Growth leaves a free slot, so the branch that reports a full map is unreachable. */
  lemma ExpandedHasRoom(s: MapState)
    requires Healthy(s)
    ensures var g := Expanded(s);
            && Ok(g) && Model(g) == Model(s.t)
            && |Occupied(g)| == |Occupied(s.t)| && |Occupied(g)| < |g| && s.used < |g|
  {
    OnePassStabilises(s.t);
    OnePassSuffices(s.t);
  }

  /** Replacing the value of a stored entry keeps every path and every other entry. */
  lemma ReplaceKeepsOk(t: MapTable, i: nat, v: Value)
    requires i < |t| && t[i].Used? && Ok(t)
    ensures var u := t[i := Used(t[i].node.(value := v))];
            Ok(u) && Occupied(u) == Occupied(t) && Model(u) == Model(t)[IdOf(t[i].node) := v]
  {
    var u := t[i := Used(t[i].node.(value := v))];
    forall p: nat | p < |u| && u[p].Used? ensures Reachable(u, p) {
      assert Reachable(t, p);
    }
    forall id | id in Ids(t) ensures id in Ids(u) && Model(u)[id] == Model(t)[IdOf(t[i].node) := v][id] {
      var j := SlotOf(t, id);
      assert u[j].Used? && IdOf(u[j].node) == id;
    }
    forall id | id in Ids(u) ensures id in Ids(t) {
      var j := SlotOf(u, id);
      assert t[j].Used? && IdOf(t[j].node) == id;
    }
  }

  /** Storing an entry that is not in the table. */
  lemma PutNew(g: MapTable, id: Id, v: Value)
    requires |g| > 0 && Ok(g) && |Occupied(g)| < |g| && id !in Model(g)
    ensures var r := Find(g, id);
            && r.Vacant?
            && Ok(g[r.i := Entry(id, v)])
            && Model(g[r.i := Entry(id, v)]) == Model(g)[id := v]
            && |Occupied(g[r.i := Entry(id, v)])| == |Occupied(g)| + 1
  {
    RoomIsVacant(g, id);
    LookupIsModel(g, id);
    InsertKeepsOk(g, Entry(id, v).node);
    var i := Find(g, id).i;
    assert Occupied(g[i := Entry(id, v)]) == Occupied(g) + {i};
  }

  /** Storing over an entry that is in the table. */
  lemma PutOver(g: MapTable, id: Id, v: Value)
    requires |g| > 0 && Ok(g) && id in Model(g)
    ensures var r := Find(g, id);
            && r.Found? && g[r.i].node == Node(id.0, id.1, Model(g)[id])
            && Ok(g[r.i := Entry(id, v)])
            && Model(g[r.i := Entry(id, v)]) == Model(g)[id := v]
            && |Occupied(g[r.i := Entry(id, v)])| == |Occupied(g)|
  {
    LookupIsModel(g, id);
    ReplaceKeepsOk(g, Find(g, id).i, v);
  }

  /** Setting refines map update through any growth.  The returned pointer is the replaced one exactly
      when there was one the map does not own; the counter stays exact exactly if the key was not
      already stored with a NULL pointer. */
  lemma PutRefines(s: MapState, id: Id, ref: nat, owned: bool)
    requires Healthy(s)
    ensures var (s', r) := PutIn(s, id, ref, owned);
            var m := Model(s.t);
            && Healthy(s')
            && Model(s'.t) == m[id := Value(ref, if Present(s.t, id) then m[id].owned else owned)]
            && r == (if Present(s.t, id) && !m[id].owned then m[id].ref else ref)
            && s'.used == s.used + (if Present(s.t, id) then 0 else 1)
            && (Counted(s) ==> (Counted(s') <==> !(id in m && m[id].ref == NULL)))
  {
    ExpandedHasRoom(s);
    var g := Expanded(s);
    var v := Value(ref, if Present(s.t, id) then Model(s.t)[id].owned else owned);
    if id in Model(g) {
      PutOver(g, id, v);
    } else {
      PutNew(g, id, v);
    }
    assert PutIn(s, id, ref, owned).0.t == g[Find(g, id).i := Entry(id, v)];
  }

  /** The table doubles exactly when, before the key is looked up, a quarter of the slots or more is counted as taken. */
  lemma PutGrows(s: MapState, id: Id, ref: nat, owned: bool)
    requires Healthy(s)
    ensures |PutIn(s, id, ref, owned).0.t| == if 4 * s.used >= |s.t| then 2 * |s.t| else |s.t|
  {
    OnePassStabilises(s.t);
  }

  /** If the entry is removed, the slot that is freed has a barrier at or above it. */
  ghost predicate RemovalGuarded(s: MapState, id: Id)
    requires |s.t| > 0
  {
    GetFrom(s.t, id) != NULL ==> BarrierFrom(s.t, Find(s.t, id).i)
  }

  /** Removing drops exactly the entry (unless its pointer is NULL), whatever happens to the paths; every
      other entry stays findable exactly if the removal is guarded. */
  lemma RemoveRefines(s: MapState, id: Id)
    requires Healthy(s)
    ensures var (s', r) := RemoveFrom(s, id);
            var m := Model(s.t);
            && Distinct(s'.t)
            && Model(s'.t) == (if Present(s.t, id) then m - {id} else m)
            && r == (if Present(s.t, id) && !m[id].owned then m[id].ref else NULL)
            && (AllFound(s'.t) <==> RemovalGuarded(s, id))
            && (AllFound(s'.t) <==> Healthy(s'))
            && s'.used == s.used - (if Present(s.t, id) then 1 else 0)
            && (Counted(s) ==> Counted(s'))
  {
    LookupIsModel(s.t, id);
    if Present(s.t, id) {
      var i := Find(s.t, id).i;
      RemovalExact(s.t, i);
      assert i in Occupied(s.t);
    }
    OkIsAllFound(RemoveFrom(s, id).0.t);
  }

  // ---- whole runs ----

  datatype Op = Set(id: Id, ref: nat, owned: bool) | Remove(id: Id)

  function Apply(s: MapState, op: Op): (s': MapState)
    requires |s.t| > 0
    ensures |s'.t| > 0
  {
    match op
    case Set(id, ref, owned) => PutIn(s, id, ref, owned).0
    case Remove(id) => RemoveFrom(s, id).0
  }

  function Run(s: MapState, ops: seq<Op>): MapState
    requires |s.t| > 0
    decreases |ops|
  {
    if ops == [] then s else Run(Apply(s, ops[0]), ops[1..])
  }

  /** What one operation does to the map; removing does not see an entry whose pointer is NULL. */
  function StepMap(m: map<Id, nat>, op: Op): map<Id, nat> {
    match op
    case Set(id, ref, _) => m[id := ref]
    case Remove(id) => if id in m && m[id] != NULL then m - {id} else m
  }

  /** The finite map after the same operations. */
  function RunMap(m: map<Id, nat>, ops: seq<Op>): map<Id, nat>
    decreases |ops|
  {
    if ops == [] then m
    else RunMap(StepMap(m, ops[0]), ops[1..])
  }

  /** The sets that find their key stored with a NULL pointer: each counts the entry once more. */
  function Recounted(m: map<Id, nat>, ops: seq<Op>): nat
    decreases |ops|
  {
    if ops == [] then 0 else RecountedBy(m, ops[0]) + Recounted(StepMap(m, ops[0]), ops[1..])
  }

  function RecountedBy(m: map<Id, nat>, op: Op): nat {
    if op.Set? && op.id in m && m[op.id] == NULL then 1 else 0
  }

  ghost predicate RemovalsGuarded(s: MapState, ops: seq<Op>)
    requires |s.t| > 0
    decreases |ops|
  {
    ops != [] ==>
      && (ops[0].Remove? ==> RemovalGuarded(s, ops[0].id))
      && RemovalsGuarded(Apply(s, ops[0]), ops[1..])
  }

  ghost predicate AlwaysFound(s: MapState, ops: seq<Op>)
    requires |s.t| > 0
    decreases |ops|
  {
    AllFound(s.t) && (ops != [] ==> AlwaysFound(Apply(s, ops[0]), ops[1..]))
  }

  /** The pointers stored, by entry. */
  ghost function Refs(m: map<Id, Value>): map<Id, nat> {
    map id | id in m :: m[id].ref
  }

  ghost function View(t: MapTable): map<Id, nat>
    requires Distinct(t)
  {
    Refs(Model(t))
  }

  lemma RefsOfUpdate(m: map<Id, Value>, id: Id, v: Value)
    ensures Refs(m[id := v]) == Refs(m)[id := v.ref]
    ensures Refs(m - {id}) == Refs(m) - {id}
  {
  }

  /** Any run of sets and removals keeps every entry findable throughout exactly if its removals are guarded;
      then it computes the finite map, and the counter is ahead of the number of entries by one more for each
      set that found a NULL pointer under its key. */
  lemma RunRefinesMap(s: MapState, ops: seq<Op>)
    requires Healthy(s)
    ensures AlwaysFound(s, ops) <==> RemovalsGuarded(s, ops)
    ensures RemovalsGuarded(s, ops) ==>
              var e := Run(s, ops);
              && Healthy(e) && View(e.t) == RunMap(View(s.t), ops)
              && e.used - |RunMap(View(s.t), ops)| == s.used - |View(s.t)| + Recounted(View(s.t), ops)
  {
    FoundWhileGuarded(s, ops);
    if RemovalsGuarded(s, ops) {
      GuardedRun(s, ops);
    }
  }

  /** From four slots on, the counter never passes a quarter of the slots by more than one. */
  lemma {:induction false} LoadStaysLow(s: MapState, ops: seq<Op>)
    requires Healthy(s) && RemovalsGuarded(s, ops) && |s.t| >= 4 && 4 * s.used <= |s.t| + 4
    ensures var e := Run(s, ops); |e.t| >= |s.t| && 4 * e.used <= |e.t| + 4
    decreases |ops|
  {
    if ops != [] {
      match ops[0] {
        case Set(id, ref, owned) =>
          PutGrows(s, id, ref, owned);
          PutRefines(s, id, ref, owned);
        case Remove(id) =>
          RemoveRefines(s, id);
      }
      LoadStaysLow(Apply(s, ops[0]), ops[1..]);
    }
  }

  /** So, from an empty map, used_nodes is the number of entries exactly if no set found a NULL pointer; and
      none does if only pointers that are not NULL are set. */
  lemma CounterIsExact(n: nat, ops: seq<Op>)
    requires n > 0 && RemovalsGuarded(Empty(n), ops)
    ensures Run(Empty(n), ops).used == |RunMap(map[], ops)| <==> Recounted(map[], ops) == 0
    ensures (forall i :: 0 <= i < |ops| && ops[i].Set? ==> ops[i].ref != NULL) ==> Recounted(map[], ops) == 0
  {
    EmptyIsHealthy(n);
    assert View(Empty(n).t) == map[];
    GuardedRun(Empty(n), ops);
    if forall i :: 0 <= i < |ops| && ops[i].Set? ==> ops[i].ref != NULL {
      NeverRecounted(map[], ops);
    }
  }

  lemma {:induction false} NeverRecounted(m: map<Id, nat>, ops: seq<Op>)
    requires NULL !in m.Values
    requires forall i :: 0 <= i < |ops| && ops[i].Set? ==> ops[i].ref != NULL
    ensures Recounted(m, ops) == 0
    decreases |ops|
  {
    if ops != [] {
      assert forall id :: id in m ==> m[id] in m.Values;
      NeverRecounted(StepMap(m, ops[0]), ops[1..]);
    }
  }

  lemma {:induction false} FoundWhileGuarded(s: MapState, ops: seq<Op>)
    requires Healthy(s)
    ensures AlwaysFound(s, ops) <==> RemovalsGuarded(s, ops)
    decreases |ops|
  {
    OkIsAllFound(s.t);
    if ops != [] {
      StepRefinesMap(s, ops[0]);
      if Healthy(Apply(s, ops[0])) {
        FoundWhileGuarded(Apply(s, ops[0]), ops[1..]);
      }
    }
  }

  lemma {:induction false} GuardedRun(s: MapState, ops: seq<Op>)
    requires Healthy(s) && RemovalsGuarded(s, ops)
    ensures Healthy(Run(s, ops)) && View(Run(s, ops).t) == RunMap(View(s.t), ops)
    ensures Run(s, ops).used - |RunMap(View(s.t), ops)| == s.used - |View(s.t)| + Recounted(View(s.t), ops)
    decreases |ops|
  {
    if ops != [] {
      StepRefinesMap(s, ops[0]);
      GuardedRun(Apply(s, ops[0]), ops[1..]);
    }
  }

  lemma StepRefinesMap(s: MapState, op: Op)
    requires Healthy(s)
    ensures var s' := Apply(s, op);
            && Distinct(s'.t) && View(s'.t) == StepMap(View(s.t), op)
            && (AllFound(s'.t) <==> Healthy(s'))
            && (Healthy(s') <==> (op.Remove? ==> RemovalGuarded(s, op.id)))
            && s'.used - |View(s'.t)| == s.used - |View(s.t)| + RecountedBy(View(s.t), op)
  {
    match op
    case Set(id, ref, owned) => SetStep(s, id, ref, owned);
    case Remove(id) => RemoveStep(s, id);
  }

  lemma SetStep(s: MapState, id: Id, ref: nat, owned: bool)
    requires Healthy(s)
    ensures var s' := PutIn(s, id, ref, owned).0;
            && Healthy(s') && AllFound(s'.t)
            && View(s'.t) == View(s.t)[id := ref]
            && s'.used - |View(s'.t)| == s.used - |View(s.t)| + RecountedBy(View(s.t), Set(id, ref, owned))
  {
    PutRefines(s, id, ref, owned);
    var s' := PutIn(s, id, ref, owned).0;
    OkIsAllFound(s'.t);
    SetSeen(s, s', id, Value(ref, if Present(s.t, id) then Model(s.t)[id].owned else owned));
  }

  lemma SetSeen(s: MapState, s': MapState, id: Id, v: Value)
    requires Distinct(s.t) && Distinct(s'.t) && Model(s'.t) == Model(s.t)[id := v]
    requires s'.used == s.used + (if Present(s.t, id) then 0 else 1)
    ensures View(s'.t) == View(s.t)[id := v.ref]
    ensures s'.used - |View(s'.t)| == s.used - |View(s.t)| + RecountedBy(View(s.t), Set(id, v.ref, v.owned))
  {
    RefsOfUpdate(Model(s.t), id, v);
    SizeOfUpdate(View(s.t), id, v.ref);
  }

  lemma RemoveStep(s: MapState, id: Id)
    requires Healthy(s)
    ensures var s' := RemoveFrom(s, id).0;
            && Distinct(s'.t) && View(s'.t) == StepMap(View(s.t), Remove(id))
            && (AllFound(s'.t) <==> Healthy(s')) && (Healthy(s') <==> RemovalGuarded(s, id))
            && s'.used - |View(s'.t)| == s.used - |View(s.t)|
  {
    RemoveRefines(s, id);
    RemovalSeen(s, RemoveFrom(s, id).0, id);
  }

  lemma RemovalSeen(s: MapState, s': MapState, id: Id)
    requires Distinct(s.t) && Distinct(s'.t)
    requires Model(s'.t) == (if Present(s.t, id) then Model(s.t) - {id} else Model(s.t))
    requires s'.used == s.used - (if Present(s.t, id) then 1 else 0)
    ensures View(s'.t) == StepMap(View(s.t), Remove(id))
    ensures s'.used - |View(s'.t)| == s.used - |View(s.t)|
  {
    RefsOfRemoval(Model(s.t), Model(s'.t), id);
  }

  lemma RefsOfRemoval(m: map<Id, Value>, m': map<Id, Value>, id: Id)
    requires m' == (if id in m && m[id].ref != NULL then m - {id} else m)
    ensures Refs(m') == StepMap(Refs(m), Remove(id))
    ensures |Refs(m')| == |Refs(m)| - (if id in m && m[id].ref != NULL then 1 else 0)
  {
    RefsOfUpdate(m, id, Value(NULL, false));
    SizeOfUpdate(Refs(m), id, NULL);
  }

  lemma SizeOfUpdate(m: map<Id, nat>, id: Id, ref: nat)
    ensures |m[id := ref]| == |m| + (if id in m then 0 else 1)
    ensures |m - {id}| == |m| - (if id in m then 1 else 0)
  {
    assert m[id := ref].Keys == m.Keys + {id};
    assert (m - {id}).Keys == m.Keys - {id};
  }

  // ---- replacing an entry ----

  /** Removing a key and setting it again needs no guard: the table is healthy afterwards, and the map is
      updated as if by one set, except that nothing of the old value is kept. */
  lemma ReplaceRefines(s: MapState, id: Id, ref: nat, owned: bool)
    requires Healthy(s)
    ensures var s' := PutIn(RemoveFrom(s, id).0, id, ref, owned).0;
            && Healthy(s') && Model(s'.t) == Model(s.t)[id := Value(ref, owned)]
            && (Counted(s) ==> (Counted(s') <==> !(id in Model(s.t) && Model(s.t)[id].ref == NULL)))
  {
    RemoveRefines(s, id);
    if Present(s.t, id) {
      ReplaceStored(s, id, ref, owned);
    } else {
      PutRefines(s, id, ref, owned);
    }
  }

  lemma ReplaceStored(s: MapState, id: Id, ref: nat, owned: bool)
    requires Healthy(s) && Present(s.t, id)
    ensures var s' := PutIn(RemoveFrom(s, id).0, id, ref, owned).0;
            && Healthy(s') && Model(s'.t) == Model(s.t)[id := Value(ref, owned)]
            && s'.used == s.used && |Occupied(s'.t)| == |Occupied(s.t)|
  {
    LookupIsModel(s.t, id);
    var r, v := Find(s.t, id).i, Value(ref, owned);
    RemovalDropsEntry(s.t, r);
    var u := MapState(Removed(s.t, r), s.used - 1);
    assert RemoveFrom(s, id).0 == u;
    if 4 * u.used >= |u.t| {
      ReplaceGrown(u, id, ref, owned);
    } else {
      RefillKeepsOk(s.t, r, v);
      assert s.t[r].node.(value := v) == Entry(id, v).node;
      ReplaceInHole(u, id, ref, owned);
    }
    PutBack(Model(s.t), id, v);
  }

  lemma PutBack(m: map<Id, Value>, id: Id, v: Value)
    ensures (m - {id})[id := v] == m[id := v]
  {
  }

  /** The table may be broken here, but growth repairs it. */
  lemma ReplaceGrown(u: MapState, id: Id, ref: nat, owned: bool)
    requires |u.t| > 0 && Distinct(u.t) && |Occupied(u.t)| <= u.used < |u.t| && 4 * u.used >= |u.t|
    requires id !in Model(u.t)
    ensures var s' := PutIn(u, id, ref, owned).0;
            && Healthy(s') && Model(s'.t) == Model(u.t)[id := Value(ref, owned)]
            && s'.used == u.used + 1 && |Occupied(s'.t)| == |Occupied(u.t)| + 1
  {
    OnePassStabilises(u.t);
    OnePassSuffices(u.t);
    PutNew(Grown(u.t), id, Value(ref, owned));
  }

  /** Without growth the new entry fills the hole. */
  lemma ReplaceInHole(u: MapState, id: Id, ref: nat, owned: bool)
    requires |u.t| > 0 && Distinct(u.t) && |Occupied(u.t)| <= u.used && 4 * u.used < |u.t|
    requires id !in Ids(u.t) && Find(u.t, id).Vacant? && Ok(u.t[Find(u.t, id).i := Entry(id, Value(ref, owned))])
    ensures var s' := PutIn(u, id, ref, owned).0;
            && Healthy(s') && Model(s'.t) == Model(u.t)[id := Value(ref, owned)]
            && s'.used == u.used + 1 && |Occupied(s'.t)| == |Occupied(u.t)| + 1
  {
    var i, e := Find(u.t, id).i, Entry(id, Value(ref, owned));
    InsertInModel(u.t, i, e.node);
    OccupiedAfterPut(u.t, i, e);
  }

  lemma OccupiedAfterPut(t: MapTable, i: nat, e: Slot<Value>)
    requires i < |t| && t[i].Free? && e.Used?
    ensures |Occupied(t[i := e])| == |Occupied(t)| + 1
  {
    assert Occupied(t[i := e]) == Occupied(t) + {i};
  }

  /** Setting keys one after another, an older entry of the same key removed first, computes the finite map of
      the last values, with no condition on the table. */
  function SetLast(s: MapState, sets: seq<(Id, nat)>): (s': MapState)
    requires |s.t| > 0
    ensures |s'.t| > 0
    decreases |sets|
  {
    if sets == [] then s
    else SetLast(PutIn(RemoveFrom(s, sets[0].0).0, sets[0].0, sets[0].1, false).0, sets[1..])
  }

  function LastValues(m: map<Id, nat>, sets: seq<(Id, nat)>): map<Id, nat>
    decreases |sets|
  {
    if sets == [] then m else LastValues(m[sets[0].0 := sets[0].1], sets[1..])
  }

  lemma {:induction false} SetLastRefinesMap(s: MapState, sets: seq<(Id, nat)>)
    requires Healthy(s)
    ensures var e := SetLast(s, sets);
            Healthy(e) && AllFound(e.t) && View(e.t) == LastValues(View(s.t), sets)
    decreases |sets|
  {
    OkIsAllFound(s.t);
    if sets != [] {
      var (id, ref) := sets[0];
      ReplaceRefines(s, id, ref, false);
      RefsOfUpdate(Model(s.t), id, Value(ref, false));
      SetLastRefinesMap(PutIn(RemoveFrom(s, id).0, id, ref, false).0, sets[1..]);
    }
  }

  // ---- two concrete runs ----

  /** A key set to NULL twice: one entry, counted twice. */
  lemma NullValueCountedTwice(id: Id)
    ensures var s := Run(Empty(8), [Set(id, NULL, false), Set(id, NULL, false)]);
            s.used == 2 && |Ids(s.t)| == 1
  {
    var op := Set(id, NULL, false);
    EmptyIsHealthy(8);
    PutRefines(Empty(8), id, NULL, false);
    var s1 := Apply(Empty(8), op);
    assert Find(Empty(8).t, id) == Vacant(id.1 % 8);
    assert s1 == MapState(Frees(8)[id.1 % 8 := Entry(id, Value(NULL, false))], 1);
    SecondNull(s1, id);
    TwoSteps(Empty(8), op, op);
  }

  lemma SecondNull(s: MapState, id: Id)
    requires Healthy(s) && s.used == 1 && Model(s.t).Keys == {id} && |s.t| == 8
    requires s.t[id.1 % 8].Used? && IdOf(s.t[id.1 % 8].node) == id && Model(s.t)[id].ref == NULL
    ensures var s' := Apply(s, Set(id, NULL, false)); s'.used == 2 && Ids(s'.t) == {id}
  {
    PutRefines(s, id, NULL, false);
    assert Find(s.t, id) == Found(id.1 % 8);
  }

  lemma TwoSteps(s: MapState, a: Op, b: Op)
    requires |s.t| > 0
    ensures Run(s, [a, b]) == Apply(Apply(s, a), b)
  {
    assert [a, b][1..] == [b] && [b][1..] == [];
    assert Run(Apply(s, a), [b]) == Run(Apply(Apply(s, a), b), []);
  }

  /** A removal without a guard, in a table of any size from 5 on: two keys whose home is the last slot; once
      the first is removed the second is stored but not found. */
  lemma UnguardedRemovalLosesEntry(n: nat, a: Id, b: Id, ref: nat)
    requires n >= 5 && a.1 % n == n - 1 && b.1 % n == n - 1 && a != b && ref != NULL
    ensures var s := Apply(Apply(Apply(Empty(n), Set(a, ref, false)), Set(b, ref, false)), Remove(a));
            && Distinct(s.t) && View(s.t) == map[b := ref] && s.used == 1
            && GetFrom(s.t, b) == NULL
  {
    var s := TwoEntriesAtTheEnd(n, a, b, ref);
    EntryAtTheEnd(n, a, b, Value(ref, false), s.t);
    SecondIsLost(s, n - 1, a, b, ref);
  }

  lemma EntryAtTheEnd(n: nat, a: Id, b: Id, v: Value, t: MapTable)
    requires n >= 5 && a.1 % n == n - 1 && b.1 % n == n - 1 && a != b
    requires t == Frees(n)[n - 1 := Entry(a, v)][0 := Entry(b, v)]
    ensures Find(t, a) == Found(n - 1) && t[n - 1].node.value == v
    ensures Removed(t, n - 1) == t[n - 1 := Free] && Find(t[n - 1 := Free], b).Vacant?
  {
    WrappedEntryIsLost(n, Entry(a, v).node, Entry(b, v).node);
  }

  lemma SecondIsLost(s: MapState, last: nat, a: Id, b: Id, ref: nat)
    requires Healthy(s) && s.used == 2 && a != b && ref != NULL
    requires var none: map<Id, nat> := map[]; View(s.t) == none[a := ref][b := ref]
    requires Find(s.t, a) == Found(last) && s.t[last].node.value.ref == ref
    requires Removed(s.t, last) == s.t[last := Free] && Find(s.t[last := Free], b).Vacant?
    ensures var e := Apply(s, Remove(a));
            Distinct(e.t) && View(e.t) == map[b := ref] && e.used == 1 && GetFrom(e.t, b) == NULL
  {
    RemoveStep(s, a);
    OneOfTwo(a, b, ref);
  }

  lemma TwoEntriesAtTheEnd(n: nat, a: Id, b: Id, ref: nat) returns (s: MapState)
    requires n >= 5 && a.1 % n == n - 1 && b.1 % n == n - 1 && a != b && ref != NULL
    ensures s == Apply(Apply(Empty(n), Set(a, ref, false)), Set(b, ref, false))
    ensures s.t == Frees(n)[n - 1 := Entry(a, Value(ref, false))][0 := Entry(b, Value(ref, false))] && s.used == 2
    ensures var none: map<Id, nat> := map[]; Healthy(s) && View(s.t) == none[a := ref][b := ref]
  {
    var v := Value(ref, false);
    EntryWraps(n, Entry(a, v).node, Entry(b, v).node);
    EmptyIsHealthy(n);
    SetStep(Empty(n), a, ref, false);
    PutVacant(Empty(n), a, ref, n - 1);
    var s1 := MapState(Frees(n)[n - 1 := Entry(a, v)], 1);
    SetStep(s1, b, ref, false);
    PutVacant(s1, b, ref, 0);
    s := MapState(s1.t[0 := Entry(b, v)], 2);
  }

  lemma PutVacant(s: MapState, id: Id, ref: nat, i: nat)
    requires |s.t| > 0 && 4 * s.used < |s.t| && Find(s.t, id) == Vacant(i)
    ensures PutIn(s, id, ref, false).0 == MapState(s.t[i := Entry(id, Value(ref, false))], s.used + 1)
  {
  }

  lemma OneOfTwo(a: Id, b: Id, ref: nat)
    requires a != b && ref != NULL
    ensures var none: map<Id, nat> := map[]; StepMap(none[a := ref][b := ref], Remove(a)) == map[b := ref]
  {
    var none: map<Id, nat> := map[];
    assert none[a := ref][b := ref] - {a} == map[b := ref];
  }
}
