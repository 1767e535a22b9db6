/** Open addressing with linear probing: what dse/clib/collections/set.c and hashmap.c share.

    A table is the array of node pointers, `Free` standing for a NULL pointer.  A node keeps its key and
    its 64-bit hash; two nodes are the same entry when both agree.  The size of a table is `|t|`
    (number_nodes) and the home slot of a node is its hash modulo that size. */
module Probing {
  datatype Node<V> = Node(key: string, hash: nat, value: V)
  datatype Slot<V> = Free | Used(node: Node<V>)
  type Table<V> = seq<Slot<V>>
  type Id = (string, nat)
  type Hash = string -> nat

  /** Where a probe ends: at the entry looked for, at the first free slot, or back where it began. */
  datatype Probe = Found(i: nat) | Vacant(i: nat) | Circular

  function IdOf<V>(x: Node<V>): Id {
    (x.key, x.hash)
  }

  /** Slot j is passed on the way from slot c (included) up to slot i (excluded), wrapping at the end. */
  predicate Between(c: nat, j: nat, i: nat) {
    if c <= i then c <= j < i else c <= j || j < i
  }

  function Next<V>(t: Table<V>, i: nat): nat {
    if i + 1 == |t| then 0 else i + 1
  }

  function HomeAt<V>(t: Table<V>, i: nat): (c: nat)
    requires i < |t| && t[i].Used?
    ensures c < |t|
  {
    t[i].node.hash % |t|
  }

  predicate Holds<V>(t: Table<V>, i: nat, id: Id)
    requires i < |t|
  {
    t[i].Used? && IdOf(t[i].node) == id
  }

  /** Every slot from c up to i is used, and by another entry than id. */
  ghost predicate Passed<V>(t: Table<V>, id: Id, c: nat, i: nat) {
    forall j: nat :: j < |t| && Between(c, j, i) ==> t[j].Used? && !Holds(t, j, id)
  }

  ghost predicate PathFull<V>(t: Table<V>, c: nat, i: nat) {
    forall j: nat :: j < |t| && Between(c, j, i) ==> t[j].Used?
  }

  ghost predicate Reachable<V>(t: Table<V>, p: nat)
    requires p < |t| && t[p].Used?
  {
    PathFull(t, HomeAt(t, p), p)
  }

  ghost predicate Distinct<V>(t: Table<V>) {
    forall i: nat, j: nat :: i < j < |t| && t[i].Used? && t[j].Used? ==> IdOf(t[i].node) != IdOf(t[j].node)
  }

  /** The invariant of a healthy table: no duplicate entry, and every entry reachable from its home. */
  ghost predicate Ok<V>(t: Table<V>) {
    && Distinct(t)
    && forall p: nat :: p < |t| && t[p].Used? ==> Reachable(t, p)
  }

  ghost function Nodes<V>(t: Table<V>): set<Node<V>> {
    set i: nat | i < |t| && t[i].Used? :: t[i].node
  }

  ghost function Ids<V>(t: Table<V>): set<Id> {
    set i: nat | i < |t| && t[i].Used? :: IdOf(t[i].node)
  }

  ghost function Occupied<V>(t: Table<V>): set<nat> {
    set i: nat | i < |t| && t[i].Used?
  }

  ghost function SlotOf<V>(t: Table<V>, id: Id): (i: nat)
    requires id in Ids(t)
    ensures i < |t| && Holds(t, i, id)
  {
    var i: nat :| i < |t| && t[i].Used? && IdOf(t[i].node) == id;
    i
  }

  /** The finite map a table stands for. */
  ghost function Model<V>(t: Table<V>): (m: map<Id, V>)
    requires Distinct(t)
    ensures m.Keys == Ids(t)
    ensures forall i: nat :: i < |t| && t[i].Used? ==> m[IdOf(t[i].node)] == t[i].node.value
  {
    map id | id in Ids(t) :: t[SlotOf(t, id)].node.value
  }

  /** The probe loop of __get_index and hashmap_get_node, from slot i of a walk that began at c. */
  function FindFrom<V>(t: Table<V>, id: Id, c: nat, i: nat): (r: Probe)
    requires c < |t| && i < |t|
    requires Passed(t, id, c, i)
    ensures r.Found? ==> r.i < |t| && Holds(t, r.i, id) && Passed(t, id, c, r.i)
    ensures r.Vacant? ==> r.i < |t| && t[r.i].Free? && Passed(t, id, c, r.i)
    ensures r.Circular? ==> forall j: nat :: j < |t| ==> t[j].Used? && !Holds(t, j, id)
    decreases if i >= c then |t| - i + c else c - i
  {
    if t[i].Free? then Vacant(i)
    else if Holds(t, i, id) then Found(i)
    else if Next(t, i) == c then
      assert forall j: nat :: j < |t| ==> Between(c, j, i) || j == i;
      Circular
    else FindFrom(t, id, c, Next(t, i))
  }

  function Find<V>(t: Table<V>, id: Id): (r: Probe)
    requires |t| > 0
    ensures var c := id.1 % |t|;
            && (r.Found? ==> r.i < |t| && Holds(t, r.i, id) && Passed(t, id, c, r.i))
            && (r.Vacant? ==> r.i < |t| && t[r.i].Free? && Passed(t, id, c, r.i))
            && (r.Circular? ==> forall j: nat :: j < |t| ==> t[j].Used? && !Holds(t, j, id))
  {
    FindFrom(t, id, id.1 % |t|, id.1 % |t|)
  }

  /** In a table without duplicates a lookup finds a stored entry exactly when the entry is reachable. */
  lemma FoundIffReachable<V>(t: Table<V>, p: nat)
    requires p < |t| && t[p].Used? && Distinct(t)
    ensures Find(t, IdOf(t[p].node)) == Found(p) <==> Reachable(t, p)
    ensures Find(t, IdOf(t[p].node)).Found? <==> Reachable(t, p)
  {
    var id, c := IdOf(t[p].node), HomeAt(t, p);
    var r := Find(t, id);
    assert Holds(t, p, id);
    assert r.Vacant? ==> Between(c, r.i, p);
    assert r.Found? ==> r.i == p;
  }

  /** A healthy table answers every lookup as the map it stands for. */
  lemma LookupIsModel<V>(t: Table<V>, id: Id)
    requires |t| > 0 && Ok(t)
    ensures Find(t, id).Found? <==> id in Model(t)
    ensures id in Model(t) ==> t[Find(t, id).i].node.value == Model(t)[id]
  {
    if id in Ids(t) {
      var p: nat :| p < |t| && t[p].Used? && IdOf(t[p].node) == id;
      FoundIffReachable(t, p);
    }
  }

  /** An unsuccessful probe of a table with room ends at a free slot. */
  lemma RoomIsVacant<V>(t: Table<V>, id: Id)
    requires |t| > 0 && |Occupied(t)| < |t|
    ensures !Find(t, id).Circular?
  {
    IntervalSize(0, |t|);
    assert Find(t, id).Circular? ==> Occupied(t) == Interval(0, |t|);
  }

  /** Writing an entry that is not there yet into the free slot its probe ended at. */
  lemma InsertKeepsOk<V>(t: Table<V>, x: Node<V>)
    requires |t| > 0 && Ok(t) && Find(t, IdOf(x)).Vacant?
    ensures var t' := t[Find(t, IdOf(x)).i := Used(x)];
            && Ok(t')
            && Nodes(t') == Nodes(t) + {x} && x !in Nodes(t)
            && Model(t') == Model(t)[IdOf(x) := x.value]
  {
    var i := Find(t, IdOf(x)).i;
    LookupIsModel(t, IdOf(x));
    assert IdOf(x) !in Ids(t);
    assert x !in Nodes(t);
    NodesAfterInsert(t, i, x);
    InsertKeepsReachable(t, i, x);
    InsertInModel(t, i, x);
  }

  lemma InsertKeepsReachable<V>(t: Table<V>, i: nat, x: Node<V>)
    requires i < |t| && t[i].Free? && Ok(t) && IdOf(x) !in Ids(t)
    requires PathFull(t, x.hash % |t|, i)
    ensures Ok(t[i := Used(x)])
  {
    var t' := t[i := Used(x)];
    forall p: nat | p < |t'| && t'[p].Used? ensures Reachable(t', p) {
      assert p != i ==> Reachable(t, p);
    }
    forall j: nat | j < |t| && t[j].Used? ensures IdOf(t[j].node) != IdOf(x) {
      assert IdOf(t[j].node) in Ids(t);
    }
  }

  lemma InsertInModel<V>(t: Table<V>, i: nat, x: Node<V>)
    requires i < |t| && t[i].Free? && Distinct(t) && Distinct(t[i := Used(x)]) && IdOf(x) !in Ids(t)
    ensures Model(t[i := Used(x)]) == Model(t)[IdOf(x) := x.value]
  {
    var t' := t[i := Used(x)];
    assert t'[i].Used?;
    forall id | id in Ids(t) ensures id in Ids(t') && Model(t')[id] == Model(t)[id] {
      var j := SlotOf(t, id);
      assert t'[j] == t[j];
    }
    forall id | id in Ids(t') && id != IdOf(x) ensures id in Ids(t) {
      var j := SlotOf(t', id);
      assert t'[j] == t[j];
    }
  }

  lemma NodesAfterInsert<V>(t: Table<V>, i: nat, x: Node<V>)
    requires i < |t| && t[i].Free?
    ensures Nodes(t[i := Used(x)]) == Nodes(t) + {x}
  {
    var t' := t[i := Used(x)];
    assert t'[i].Used?;
    forall y | y in Nodes(t) ensures y in Nodes(t') {
      var j: nat :| j < |t| && t[j].Used? && t[j].node == y;
      assert t'[j].Used? && t'[j].node == y;
    }
  }

  lemma ModelFromNodes<V>(t: Table<V>, u: Table<V>)
    requires Distinct(t) && Distinct(u) && Nodes(t) == Nodes(u)
    ensures Model(t) == Model(u)
  {
    ModelFromNodesOneWay(t, u);
    ModelFromNodesOneWay(u, t);
  }

  lemma ModelFromNodesOneWay<V>(t: Table<V>, u: Table<V>)
    requires Distinct(t) && Distinct(u) && Nodes(t) == Nodes(u)
    ensures forall id :: id in Model(t) ==> id in Model(u) && Model(u)[id] == Model(t)[id]
  {
    forall id | id in Model(t) ensures id in Model(u) && Model(u)[id] == Model(t)[id] {
      var i: nat :| i < |t| && t[i].Used? && IdOf(t[i].node) == id;
      assert t[i].node in Nodes(u);
      var j: nat :| j < |u| && u[j].Used? && u[j].node == t[i].node;
    }
  }

  /** The number of occupied slots is the number of entries of the map. */
  lemma SizesAgree<V>(t: Table<V>)
    requires Distinct(t)
    ensures |Occupied(t)| == |Model(t)| <= |t|
  {
    IdsAtSize(t, Occupied(t));
    assert Ids(t) == IdsAt(t, Occupied(t));
    assert |Model(t)| == |Model(t).Keys|;
    IntervalSize(0, |t|);
    SubsetSize(Occupied(t), Interval(0, |t|));
  }

  ghost function IdsAt<V>(t: Table<V>, s: set<nat>): set<Id>
    requires forall i :: i in s ==> i < |t| && t[i].Used?
  {
    set i | i in s :: IdOf(t[i].node)
  }

  lemma {:induction false} IdsAtSize<V>(t: Table<V>, s: set<nat>)
    requires Distinct(t) && forall i :: i in s ==> i < |t| && t[i].Used?
    ensures |IdsAt(t, s)| == |s|
    decreases s
  {
    if s == {} {
      assert IdsAt(t, s) == {};
    } else {
      var y :| y in s;
      IdsAtSize(t, s - {y});
      var id := IdOf(t[y].node);
      assert IdsAt(t, s) == IdsAt(t, s - {y}) + {id};
      assert id !in IdsAt(t, s - {y});
    }
  }

  // ---- finite sets ----

  ghost function Interval(lo: nat, hi: nat): (s: set<nat>)
    ensures forall i: nat :: i in s <==> lo <= i < hi
  {
    if lo >= hi then {} else Interval(lo, hi - 1) + {hi - 1}
  }

  lemma {:induction false} IntervalSize(lo: nat, hi: nat)
    requires lo <= hi
    ensures |Interval(lo, hi)| == hi - lo
    decreases hi - lo
  {
    if lo < hi {
      IntervalSize(lo, hi - 1);
    }
  }

  lemma {:induction false} SubsetSize<T>(a: set<T>, b: set<T>)
    requires a <= b
    ensures |a| <= |b|
    ensures |a| == |b| ==> a == b
  {
    assert b == a + (b - a);
    assert |b| == |a| + |b - a|;
  }
}
