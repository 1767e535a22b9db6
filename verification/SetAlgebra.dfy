/** The four set constructors, subset and comparison of dse/clib/collections/set.c, on tables. */
module SetAlgebra {
  import opened Probing
  import opened SimpleSets

  /** Which keys a loop over a table keeps: all, those another table reports present, or the others. */
  datatype Filter = All | In(u: SetTable) | NotIn(u: SetTable)

  predicate Usable(f: Filter) {
    f.All? || |f.u| > 0
  }

  predicate Keeps(f: Filter, id: Id)
    requires Usable(f)
  {
    match f
    case All => true
    case In(u) => ContainsIn(u, id) == SetTrue
    case NotIn(u) => ContainsIn(u, id) != SetTrue
  }

  /** The loop over nodes[i..] that adds the keys the filter keeps, with the hash stored beside them. */
  function Collect(s: SetState, t: SetTable, i: nat, f: Filter): (s': SetState)
    requires i <= |t| && |s.t| > 0 && Usable(f)
    ensures |s'.t| > 0
    decreases |t| - i
  {
    if i == |t| then s else Collect(CollectOne(s, t[i], f), t, i + 1, f)
  }

  function CollectOne(s: SetState, slot: Slot<()>, f: Filter): (s': SetState)
    requires |s.t| > 0 && Usable(f)
    ensures |s'.t| > 0
  {
    if slot.Used? && Keeps(f, IdOf(slot.node)) then AddTo(s, IdOf(slot.node)).0 else s
  }

  /** set_union, set_intersection, set_difference and set_symmetric_difference: the loops they run. */
  datatype Algebra = Union | Intersection | Difference | SymmetricDifference

  function Combine(op: Algebra, res: SetState, a: SetTable, b: SetTable): (r: (SetState, Rc))
    requires |res.t| > 0 && |a| > 0 && |b| > 0
  {
    if res.used != 0 then (res, OccupiedError)
    else
      match op
      case Union => (Collect(Collect(res, a, 0, All), b, 0, All), SetTrue)
      case Intersection => (Collect(res, a, 0, In(b)), SetTrue)
      case Difference => (Collect(res, a, 0, NotIn(b)), SetTrue)
      case SymmetricDifference => (Collect(Collect(res, a, 0, NotIn(b)), b, 0, NotIn(a)), SetTrue)
  }

  /** The mathematical operation each constructor is named after. */
  function SetOperation(op: Algebra, a: set<string>, b: set<string>): set<string> {
    match op
    case Union => a + b
    case Intersection => a * b
    case Difference => a - b
    case SymmetricDifference => (a - b) + (b - a)
  }

  /** set_is_subset: an entry the other table does not hold is only noticed as SET_FALSE. */
  function SubsetFrom(t: SetTable, i: nat, u: SetTable): Rc
    requires i <= |t| && |u| > 0
    decreases |t| - i
  {
    if i == |t| then SetTrue
    else if t[i].Used? && ContainsIn(u, IdOf(t[i].node)) == SetFalse then SetFalse
    else SubsetFrom(t, i + 1, u)
  }

  /** The loop of set_cmp, for tables of equal used_nodes. */
  function CompareFrom(t: SetTable, i: nat, u: SetTable, hash: Hash): Cmp
    requires i <= |t| && |u| > 0
    decreases |t| - i
  {
    if i == |t| then Equal
    else if t[i].Used? && ContainsIn(u, (t[i].node.key, hash(t[i].node.key))) != SetTrue then Unequal
    else CompareFrom(t, i + 1, u, hash)
  }

  /** set_cmp. */
  function Compare(a: SetState, b: SetState, hash: Hash): Cmp
    requires |b.t| > 0
  {
    if a.used < b.used then RightGreater
    else if b.used < a.used then LeftGreater
    else CompareFrom(a.t, 0, b.t, hash)
  }

  // ---- what they compute ----

  ghost function KeysFrom(t: SetTable, i: nat): set<string> {
    set j: nat | i <= j < |t| && t[j].Used? :: t[j].node.key
  }

  lemma KeysFromStart(t: SetTable)
    ensures KeysFrom(t, 0) == Members(t)
  {
    forall k | k in Members(t) ensures k in KeysFrom(t, 0) {
      var id :| id in Ids(t) && id.0 == k;
      var j := SlotOf(t, id);
      assert t[j].Used? && t[j].node.key == k;
    }
    forall k | k in KeysFrom(t, 0) ensures k in Members(t) {
      var j: nat :| j < |t| && t[j].Used? && t[j].node.key == k;
      assert IdOf(t[j].node) in Ids(t);
    }
  }

  lemma KeysFromStep(t: SetTable, i: nat)
    requires i < |t|
    ensures KeysFrom(t, i) == KeyIn(t[i]) + KeysFrom(t, i + 1)
  {
    if t[i].Used? {
      assert t[i].node.key in KeysFrom(t, i);
    }
  }

  /** The keys of ks a filter keeps, said with the members of its table. */
  ghost function Kept(f: Filter, ks: set<string>): set<string> {
    match f
    case All => ks
    case In(u) => ks * Members(u)
    case NotIn(u) => ks - Members(u)
  }

  ghost predicate Sound(t: SetTable, hash: Hash) {
    |t| > 0 && Ok(t) && Coherent(t, hash)
  }

  lemma KeepsIsKept(f: Filter, hash: Hash, key: string)
    requires f.All? || Sound(f.u, hash)
    ensures Keeps(f, (key, hash(key))) <==> key in Kept(f, {key})
  {
    if !f.All? {
      ContainsIsMembership(SetState(f.u, |Occupied(f.u)|), hash, key);
    }
  }

  ghost function KeyIn(slot: Slot<()>): set<string> {
    if slot.Used? then {slot.node.key} else {}
  }

  lemma CollectOneRefines(s: SetState, hash: Hash, slot: Slot<()>, f: Filter)
    requires Healthy(s, hash) && (slot.Used? ==> slot.node.hash == hash(slot.node.key))
    requires f.All? || Sound(f.u, hash)
    ensures var s' := CollectOne(s, slot, f);
            Healthy(s', hash) && Members(s'.t) == Members(s.t) + Kept(f, KeyIn(slot))
  {
    if slot.Used? {
      KeepsIsKept(f, hash, slot.node.key);
      AddRefines(s, hash, slot.node.key);
    }
  }

  lemma KeptAdds(f: Filter, a: set<string>, b: set<string>)
    ensures Kept(f, a + b) == Kept(f, a) + Kept(f, b)
  {
  }

  lemma KeptNone(f: Filter)
    ensures Kept(f, {}) == {}
  {
  }

  lemma AddsTwice(x: set<string>, y: set<string>, z: set<string>)
    ensures x + y + z == x + (y + z)
    ensures x + {} == x
  {
  }

  lemma {:induction false} CollectRefines(s: SetState, hash: Hash, t: SetTable, i: nat, f: Filter)
    requires Healthy(s, hash) && Coherent(t, hash) && i <= |t|
    requires f.All? || Sound(f.u, hash)
    ensures var s' := Collect(s, t, i, f);
            Healthy(s', hash) && Members(s'.t) == Members(s.t) + Kept(f, KeysFrom(t, i))
    decreases |t| - i
  {
    if i < |t| {
      CollectOneRefines(s, hash, t[i], f);
      CollectRefines(CollectOne(s, t[i], f), hash, t, i + 1, f);
      KeysFromStep(t, i);
      var a, b := KeyIn(t[i]), KeysFrom(t, i + 1);
      KeptAdds(f, a, b);
      AddsTwice(Members(s.t), Kept(f, a), Kept(f, b));
    } else {
      KeptNone(f);
      AddsTwice(Members(s.t), {}, {});
      assert KeysFrom(t, i) == {};
    }
  }

  // ---- a result that is its own operand ----

  ghost predicate AllFree(t: SetTable) {
    forall i: nat :: i < |t| ==> t[i].Free?
  }

  lemma UnusedIsFree(s: SetState, hash: Hash)
    requires Healthy(s, hash) && s.used == 0
    ensures AllFree(s.t)
  {
    forall i: nat | i < |s.t| ensures s.t[i].Free? {
      assert s.t[i].Used? ==> i in Occupied(s.t);
    }
  }

  /** Looking keys up in a result that starts empty and grows is adding them all, or none. */
  lemma LiveFilter(s: SetState, slot: Slot<()>)
    requires |s.t| > 0
    ensures CollectOne(s, slot, NotIn(s.t)) == CollectOne(s, slot, All)
    ensures CollectOne(s, slot, In(s.t)) == s
  {
  }

  /** An empty first operand. */
  lemma FirstIsFree(s: SetState, a: SetTable, b: SetTable)
    requires |s.t| > 0 && |a| > 0 && |b| > 0 && AllFree(a)
    ensures Collect(s, a, 0, All) == Collect(s, a, 0, In(b)) == Collect(s, a, 0, NotIn(b)) == s
    ensures Collect(s, b, 0, NotIn(a)) == Collect(s, b, 0, All)
  {
    CollectFree(s, a, 0, All);
    CollectFree(s, a, 0, In(b));
    CollectFree(s, a, 0, NotIn(b));
    CollectNotInFree(s, b, 0, a);
  }

  /** An empty second operand. */
  lemma SecondIsFree(s: SetState, a: SetTable, b: SetTable)
    requires |s.t| > 0 && |a| > 0 && |b| > 0 && AllFree(b)
    ensures Collect(s, a, 0, NotIn(b)) == Collect(s, a, 0, All) && Collect(s, a, 0, In(b)) == s
    ensures var x := Collect(s, a, 0, All); Collect(x, b, 0, All) == Collect(x, b, 0, NotIn(a)) == x
  {
    CollectNotInFree(s, a, 0, b);
    CollectInFree(s, a, 0, b);
    var x := Collect(s, a, 0, All);
    CollectFree(x, b, 0, All);
    CollectFree(x, b, 0, NotIn(a));
  }

  lemma {:induction false} CollectFree(s: SetState, t: SetTable, i: nat, f: Filter)
    requires i <= |t| && |s.t| > 0 && Usable(f) && AllFree(t)
    ensures Collect(s, t, i, f) == s
    decreases |t| - i
  {
    if i < |t| {
      CollectFree(s, t, i + 1, f);
    }
  }

  lemma OneByFree(s: SetState, slot: Slot<()>, u: SetTable)
    requires |s.t| > 0 && |u| > 0 && AllFree(u)
    ensures CollectOne(s, slot, NotIn(u)) == CollectOne(s, slot, All) && CollectOne(s, slot, In(u)) == s
  {
    assert slot.Used? ==> ContainsIn(u, IdOf(slot.node)) == SetFalse;
  }

  lemma {:induction false} CollectNotInFree(s: SetState, t: SetTable, i: nat, u: SetTable)
    requires i <= |t| && |s.t| > 0 && |u| > 0 && AllFree(u)
    ensures Collect(s, t, i, NotIn(u)) == Collect(s, t, i, All)
    decreases |t| - i
  {
    if i < |t| {
      OneByFree(s, t[i], u);
      CollectNotInFree(CollectOne(s, t[i], All), t, i + 1, u);
    }
  }

  lemma {:induction false} CollectInFree(s: SetState, t: SetTable, i: nat, u: SetTable)
    requires i <= |t| && |s.t| > 0 && |u| > 0 && AllFree(u)
    ensures Collect(s, t, i, In(u)) == s
    decreases |t| - i
  {
    if i < |t| {
      OneByFree(s, t[i], u);
      CollectInFree(s, t, i + 1, u);
    }
  }

  /** Each constructor, into an empty result, computes the set operation it is named after, for any two
      healthy tables that share the hash function; a result that is not empty is refused untouched. */
  lemma CombineRefines(op: Algebra, res: SetState, hash: Hash, a: SetTable, b: SetTable)
    requires Healthy(res, hash) && Sound(a, hash) && Sound(b, hash)
    ensures var (s, rc) := Combine(op, res, a, b);
            && Healthy(s, hash)
            && (rc == OccupiedError <==> Members(res.t) != {})
            && (if rc == OccupiedError then s == res
                else rc == SetTrue && Members(s.t) == SetOperation(op, Members(a), Members(b)))
  {
    UsedIsSize(res, hash);
    KeysFromStart(a);
    KeysFromStart(b);
    if Members(res.t) == {} {
      match op
      case Union =>
        CollectRefines(res, hash, a, 0, All);
        CollectRefines(Collect(res, a, 0, All), hash, b, 0, All);
      case Intersection => CollectRefines(res, hash, a, 0, In(b));
      case Difference => CollectRefines(res, hash, a, 0, NotIn(b));
      case SymmetricDifference =>
        CollectRefines(res, hash, a, 0, NotIn(b));
        CollectRefines(Collect(res, a, 0, NotIn(b)), hash, b, 0, NotIn(a));
    }
  }

  ghost predicate Full(t: SetTable) {
    forall i: nat :: i < |t| ==> t[i].Used?
  }

  lemma {:induction false} SubsetFromExact(t: SetTable, i: nat, u: SetTable, hash: Hash)
    requires i <= |t| && Coherent(t, hash) && Sound(u, hash)
    ensures SubsetFrom(t, i, u) == (if KeysFrom(t, i) <= Members(u) || Full(u) then SetTrue else SetFalse)
    decreases |t| - i
  {
    if i < |t| {
      KeysFromStep(t, i);
      SubsetFromExact(t, i + 1, u, hash);
      if t[i].Used? {
        ContainsIsMembership(SetState(u, |Occupied(u)|), hash, t[i].node.key);
      }
    }
  }

  /** set_is_subset is true exactly for subsets and against a full table, where the lookup of an absent key
      gives the circular error, which passes. */
  lemma SubsetExact(t: SetTable, u: SetTable, hash: Hash)
    requires Sound(t, hash) && Sound(u, hash)
    ensures SubsetFrom(t, 0, u) == SetTrue <==> Members(t) <= Members(u) || Full(u)
  {
    KeysFromStart(t);
    SubsetFromExact(t, 0, u, hash);
  }

  /** The answers against a table are right for every set exactly if the table has a free slot. */
  lemma SubsetRightUnlessFull(u: SetTable, hash: Hash)
    requires Sound(u, hash)
    ensures (forall t: SetTable :: Sound(t, hash) ==> (SubsetFrom(t, 0, u) == SetTrue <==> Members(t) <= Members(u)))
       <==> !Full(u)
  {
    forall t: SetTable | Sound(t, hash)
      ensures SubsetFrom(t, 0, u) == SetTrue <==> Members(t) <= Members(u) || Full(u)
    {
      SubsetExact(t, u, hash);
    }
    if Full(u) {
      var n := LongerThanAll(Members(u));
      var key := seq(n, _ => 'x');
      EmptyIsHealthy(8, hash);
      AddRefines(Empty(8), hash, key);
      var t := AddTo(Empty(8), (key, hash(key))).0.t;
      assert Sound(t, hash) && key in Members(t) && key !in Members(u);
    }
  }

  lemma {:induction false} LongerThanAll(keys: set<string>) returns (n: nat)
    ensures forall k :: k in keys ==> |k| < n
    decreases |keys|
  {
    n := 0;
    if keys != {} {
      var k :| k in keys;
      var m := LongerThanAll(keys - {k});
      n := if |k| < m then m else |k| + 1;
      assert forall j :: j in keys ==> j == k || j in keys - {k};
    }
  }

  /** A full table of one slot is reachable, and every set is then reported as its subset. */
  lemma SubsetOfFullTable(hash: Hash)
    ensures var u := Run(Empty(1), hash, [Add("a")]); var t := Run(Empty(8), hash, [Add("b")]);
            Members(u.t) == {"a"} && Members(t.t) == {"b"} && SubsetFrom(t.t, 0, u.t) == SetTrue
  {
    EmptyIsHealthy(1, hash);
    EmptyIsHealthy(8, hash);
    AddRefines(Empty(1), hash, "a");
    AddRefines(Empty(8), hash, "b");
    var u, t := Apply(Empty(1), hash, Add("a")), Apply(Empty(8), hash, Add("b"));
    assert Find(Empty(1).t, ("a", hash("a"))) == Vacant(0);
    assert Full(u.t);
    assert [Add("a")][1..] == [] && [Add("b")][1..] == [];
    assert Run(Empty(1), hash, [Add("a")]) == Run(u, hash, []) == u;
    assert Run(Empty(8), hash, [Add("b")]) == Run(t, hash, []) == t;
    SubsetExact(t.t, u.t, hash);
  }

  lemma {:induction false} CompareFromExact(t: SetTable, i: nat, u: SetTable, hash: Hash)
    requires i <= |t| && Sound(u, hash)
    ensures CompareFrom(t, i, u, hash) == (if KeysFrom(t, i) <= Members(u) then Equal else Unequal)
    decreases |t| - i
  {
    if i < |t| {
      KeysFromStep(t, i);
      CompareFromExact(t, i + 1, u, hash);
      if t[i].Used? {
        ContainsIsMembership(SetState(u, |Occupied(u)|), hash, t[i].node.key);
      }
    }
  }

  /** set_cmp orders by size and reports equality exactly for equal sets, though it only looks the
      members of one set up in the other. */
  lemma CompareExact(a: SetState, b: SetState, hash: Hash)
    requires Healthy(a, hash) && Healthy(b, hash)
    ensures var r := Compare(a, b, hash);
            && (r == RightGreater <==> |Members(a.t)| < |Members(b.t)|)
            && (r == LeftGreater <==> |Members(a.t)| > |Members(b.t)|)
            && (r == Equal <==> Members(a.t) == Members(b.t))
            && (r == Unequal <==> |Members(a.t)| == |Members(b.t)| && Members(a.t) != Members(b.t))
  {
    UsedIsSize(a, hash);
    UsedIsSize(b, hash);
    KeysFromStart(a.t);
    CompareFromExact(a.t, 0, b.t, hash);
    if Members(a.t) <= Members(b.t) {
      SubsetSize(Members(a.t), Members(b.t));
    }
  }
}
