/** Deletion: free the slot of an entry, then close the gap with the re-layout pass that starts at that
    slot, runs upwards only, and ends at the next free slot or at the end of the array.

    Because the pass does not wrap round, a removal can cut entries off whose path runs over the end of
    the array.  `RemovalExact` says when: every other entry stays findable exactly if some slot at or
    above the removed one is not passed over by the probe path of any other entry. */
module Backshift {
  import opened Probing
  import opened Relayout

  /** The entry in slot p is reached by a path over slot b. */
  predicate Crosses<V>(t: Table<V>, p: nat, b: nat)
    requires p < |t|
  {
    t[p].Used? && Between(HomeAt(t, p), b, p)
  }

  /** No entry's probe path runs over slot b. */
  ghost predicate Barrier<V>(t: Table<V>, b: nat) {
    forall p: nat :: p < |t| ==> !Crosses(t, p, b)
  }

  /** Some slot at or above r is passed over by no entry other than the one in r. */
  ghost predicate BarrierFrom<V>(t: Table<V>, r: nat)
    requires r < |t|
  {
    HasBarrier(t[r := Free], r)
  }

  ghost predicate HasBarrier<V>(g: Table<V>, r: nat) {
    exists b: nat :: r <= b < |g| && Barrier(g, b)
  }

  /** The table after the entry in slot r has been freed and the gap closed. */
  function Removed<V>(t: Table<V>, r: nat): (u: Table<V>)
    requires r < |t|
    ensures |u| == |t|
  {
    Pass(t[r := Free], r, r, true)
  }

  ghost predicate AllFound<V>(t: Table<V>) {
    forall p: nat :: p < |t| && t[p].Used? ==> Find(t, IdOf(t[p].node)) == Found(p)
  }

  lemma OkIsAllFound<V>(t: Table<V>)
    requires Distinct(t)
    ensures Ok(t) <==> AllFound(t)
  {
    forall p: nat | p < |t| && t[p].Used? {
      FoundIffReachable(t, p);
    }
  }

  /** One moving hole: before visiting slot i the table g (the one just after the free) has become u,
      whose only possible break of any path is the free slot h. */
  ghost predicate Hole<V>(u: Table<V>, g: Table<V>, r: nat, h: nat, i: nat) {
    && |u| == |g| && r <= h < i <= |g| && u[h].Free?
    && Distinct(u)
    && (forall p: nat :: i <= p < |g| ==> u[p] == g[p])
    && (forall p: nat :: r <= p < i && p != h ==> u[p].Used?)
    && (forall p: nat, j: nat :: p < |u| && j < |u| && Crosses(u, p, j) && j != h ==> u[j].Used?)
    && (forall p: nat :: h < p < i ==> !Crosses(u, p, h))
    && (forall b: nat :: r <= b < |g| && Barrier(g, b) ==> h <= b)
    && (forall b: nat :: h <= b < |g| ==> (Barrier(u, b) <==> Barrier(g, b)))
  }

  lemma HoleStart<V>(t: Table<V>, r: nat)
    requires Ok(t) && r < |t| && t[r].Used?
    ensures Hole(t[r := Free], t[r := Free], r, r, r + 1)
  {
    var g := t[r := Free];
    forall p: nat, j: nat | p < |g| && j < |g| && Crosses(g, p, j) && j != r ensures g[j].Used? {
      assert Reachable(t, p);
    }
  }

  lemma HoleStep<V>(u: Table<V>, g: Table<V>, r: nat, h: nat, i: nat) returns (h': nat)
    requires Hole(u, g, r, h, i) && i < |g| && u[i].Used?
    ensures Hole(Settle(u, i), g, r, h', i + 1)
    ensures Settle(u, i) == if h' == h then u else Move(u, i, h)
  {
    ProbeOwnEntry(u, i);
    SettleKeepsNodes(u, i);
    if Crosses(u, i, h) {
      h' := i;
      assert Find(u, IdOf(u[i].node)) == Vacant(h) by {
        assert !Reachable(u, i);
        FoundIffReachable(u, i);
        var j := Find(u, IdOf(u[i].node)).i;
        assert Crosses(u, i, j);
      }
      assert Settle(u, i) == Move(u, i, h);
      HoleMoves(u, g, r, h, i);
    } else {
      h' := h;
      assert Reachable(u, i);
      FoundIffReachable(u, i);
    }
  }

  lemma HoleMoves<V>(u: Table<V>, g: Table<V>, r: nat, h: nat, i: nat)
    requires Hole(u, g, r, h, i) && i < |g| && u[i].Used? && Crosses(u, i, h)
    requires Distinct(Move(u, i, h))
    ensures Hole(Move(u, i, h), g, r, i, i + 1)
  {
    var v := Move(u, i, h);
    forall p: nat, j: nat | p < |v| && j < |v| && Crosses(v, p, j) && j != i ensures v[j].Used? {
      if p == h {
        assert Crosses(u, i, j) || j == h;
      } else {
        assert Crosses(u, p, j);
      }
    }
    forall b: nat | r <= b < |g| && Barrier(g, b) ensures i <= b {
      assert h <= b && Barrier(u, b);
      assert !Crosses(u, i, b);
    }
    forall b: nat | i <= b < |g| ensures Barrier(v, b) <==> Barrier(g, b) {
      assert Crosses(v, h, b) <==> Crosses(u, i, b);
      assert forall p: nat :: p < |u| && p != h && p != i ==> (Crosses(v, p, b) <==> Crosses(u, p, b));
      assert Barrier(v, b) <==> Barrier(u, b);
    }
  }

  /** The whole pass: it leaves one hole, and nothing below the freed slot changes. */
  lemma {:induction false} HoleRun<V>(u: Table<V>, g: Table<V>, r: nat, h: nat, i: nat) returns (h': nat, i': nat)
    requires Hole(u, g, r, h, i) && SameBelow(u, g, r)
    ensures EndsInHole(Pass(u, r, i, true), g, r, h', i')
    decreases |g| - i
  {
    PassVisits(u, r, i);
    if i < |g| && u[i].Used? {
      var k := HoleVisit(u, g, r, h, i);
      h', i' := HoleRun(Settle(u, i), g, r, k, i + 1);
    } else {
      h', i' := h, i;
    }
  }

  lemma HoleVisit<V>(u: Table<V>, g: Table<V>, r: nat, h: nat, i: nat) returns (h': nat)
    requires Hole(u, g, r, h, i) && SameBelow(u, g, r) && i < |g| && u[i].Used?
    ensures Hole(Settle(u, i), g, r, h', i + 1) && SameBelow(Settle(u, i), g, r)
  {
    h' := HoleStep(u, g, r, h, i);
  }

  ghost predicate EndsInHole<V>(f: Table<V>, g: Table<V>, r: nat, h: nat, i: nat) {
    Hole(f, g, r, h, i) && SameBelow(f, g, r) && (i == |g| || f[i].Free?)
  }

  ghost predicate SameBelow<V>(u: Table<V>, g: Table<V>, r: nat) {
    |u| == |g| && forall p: nat :: p < r && p < |g| ==> u[p] == g[p]
  }

  lemma PassVisits<V>(u: Table<V>, r: nat, i: nat)
    requires r < i <= |u|
    ensures Pass(u, r, i, true) == if i < |u| && u[i].Used? then Pass(Settle(u, i), r, i + 1, true) else u
  {
  }

  /** Where the pass ends, nothing breaks exactly if no path runs over the hole. */
  lemma HoleEnds<V>(u: Table<V>, g: Table<V>, r: nat, h: nat, i: nat)
    requires Hole(u, g, r, h, i) && (i == |g| || u[i].Free?)
    ensures Ok(u) <==> HasBarrier(g, r)
  {
    if Ok(u) {
      forall p: nat | p < |u| ensures !Crosses(u, p, h) {
        assert u[p].Used? ==> Reachable(u, p);
      }
      assert Barrier(u, h) && Barrier(g, h);
    }
    if HasBarrier(g, r) {
      var b: nat :| r <= b < |g| && Barrier(g, b);
      assert Barrier(u, b);
      forall p: nat | p < |u| && u[p].Used? ensures Reachable(u, p) {
        assert !Crosses(u, p, b);
        assert p > i && i < |g| && Crosses(u, p, h) ==> Crosses(u, p, i);
        assert !Crosses(u, p, h);
        assert forall j: nat :: j < |u| && Between(HomeAt(u, p), j, p) ==> Crosses(u, p, j);
      }
    }
  }

  lemma NodesAfterFree<V>(t: Table<V>, r: nat)
    requires r < |t| && t[r].Used? && Distinct(t)
    ensures Distinct(t[r := Free]) && Nodes(t[r := Free]) == Nodes(t) - {t[r].node}
    ensures Occupied(t[r := Free]) == Occupied(t) - {r}
    ensures Model(t[r := Free]) == Model(t) - {IdOf(t[r].node)}
  {
    var g := t[r := Free];
    forall x | x in Nodes(t) && x != t[r].node ensures x in Nodes(g) {
      var k: nat :| k < |t| && t[k].Used? && t[k].node == x;
      assert g[k] == t[k];
    }
    forall x | x in Nodes(g) ensures x in Nodes(t) && x != t[r].node {
      var k: nat :| k < |g| && g[k].Used? && g[k].node == x;
      assert g[k] == t[k];
    }
    forall id | id in Ids(t) && id != IdOf(t[r].node) ensures id in Ids(g) && Model(g)[id] == Model(t)[id] {
      var k := SlotOf(t, id);
      assert g[k] == t[k];
    }
    forall id | id in Ids(g) ensures id in Ids(t) && id != IdOf(t[r].node) {
      var k := SlotOf(g, id);
      assert g[k] == t[k];
    }
  }

  /** Removing the entry in slot r of a healthy table drops exactly that entry from the table, and all
      others stay findable exactly if some slot at or above r lies on no other entry's probe path. */
  lemma RemovalExact<V>(t: Table<V>, r: nat)
    requires Ok(t) && r < |t| && t[r].Used?
    ensures var u := Removed(t, r);
            && Distinct(u) && Nodes(u) == Nodes(t) - {t[r].node}
            && |Occupied(u)| == |Occupied(t)| - 1
            && Model(u) == Model(t) - {IdOf(t[r].node)}
    ensures AllFound(Removed(t, r)) <==> BarrierFrom(t, r)
  {
    RemovalDropsEntry(t, r);
    RemovalKeepsPaths(t, r);
    OkIsAllFound(Removed(t, r));
  }

  lemma RemovalDropsEntry<V>(t: Table<V>, r: nat)
    requires Distinct(t) && r < |t| && t[r].Used?
    ensures var u := Removed(t, r);
            && Distinct(u) && Nodes(u) == Nodes(t) - {t[r].node}
            && |Occupied(u)| == |Occupied(t)| - 1
            && Model(u) == Model(t) - {IdOf(t[r].node)}
  {
    NodesAfterFree(t, r);
    PassKeepsNodes(t[r := Free], r, r, true);
  }

  lemma RemovalKeepsPaths<V>(t: Table<V>, r: nat)
    requires Ok(t) && r < |t| && t[r].Used?
    ensures Ok(Removed(t, r)) <==> BarrierFrom(t, r)
  {
    var g := t[r := Free];
    HoleStart(t, r);
    assert Settle(g, r) == g;
    assert Removed(t, r) == Pass(g, r, r + 1, true);
    var h, i := HoleRun(g, g, r, r, r + 1);
    HoleEnds(Removed(t, r), g, r, h, i);
  }

  /** A free slot above the removed one is enough: the caller's usual case. */
  lemma FreeSlotAboveIsBarrier<V>(t: Table<V>, r: nat, e: nat)
    requires Ok(t) && r < e < |t| && t[r].Used? && t[e].Free?
    ensures BarrierFrom(t, r) && AllFound(Removed(t, r))
  {
    var g := t[r := Free];
    forall p: nat | p < |g| ensures !Crosses(g, p, e) {
      assert t[p].Used? ==> Reachable(t, p);
    }
    assert Barrier(g, e);
    RemovalExact(t, r);
  }

  // ---- putting the removed entry back ----

  /** Wherever the hole has moved, the removed entry's own path leads to it. */
  lemma PathLeadsToHole<V>(t: Table<V>, r: nat) returns (h: nat, i: nat)
    requires Ok(t) && r < |t| && t[r].Used?
    ensures Hole(Removed(t, r), t[r := Free], r, h, i)
    ensures PathFull(Removed(t, r), HomeAt(t, r), h)
  {
    var g, c := t[r := Free], HomeAt(t, r);
    HoleStart(t, r);
    assert Settle(g, r) == g;
    assert Removed(t, r) == Pass(g, r, r + 1, true);
    h, i := HoleRun(g, g, r, r, r + 1);
    var f := Removed(t, r);
    assert Reachable(t, r);
    forall j: nat | j < |f| && Between(c, j, h) ensures f[j].Used? {
      assert j < r || j >= i ==> Between(c, j, r) && f[j] == t[j];
    }
  }

  lemma FillHole<V>(f: Table<V>, g: Table<V>, r: nat, h: nat, i: nat, x: Node<V>)
    requires Hole(f, g, r, h, i) && IdOf(x) !in Ids(f) && PathFull(f, x.hash % |f|, h)
    ensures Find(f, IdOf(x)) == Vacant(h)
    ensures Ok(f[h := Used(x)])
  {
    var v := f[h := Used(x)];
    forall j: nat | j < |f| && f[j].Used? ensures !Holds(f, j, IdOf(x)) {
      assert IdOf(f[j].node) in Ids(f);
    }
    var q := Find(f, IdOf(x));
    assert q.Vacant? && q.i == h;
    forall p: nat | p < |v| && v[p].Used? ensures Reachable(v, p) {
      forall j: nat | j < |v| && Between(HomeAt(v, p), j, p) ensures v[j].Used? {
        assert p != h ==> Crosses(f, p, j);
      }
    }
  }

  /** No guard is needed to put the removed entry back, with any value: it fills the hole, so every path is full
      again, also those the removal had cut off. */
  lemma RefillKeepsOk<V>(t: Table<V>, r: nat, v: V)
    requires Ok(t) && r < |t| && t[r].Used?
    ensures var u, x := Removed(t, r), t[r].node.(value := v);
            && Find(u, IdOf(x)).Vacant? && IdOf(x) !in Ids(u)
            && Ok(u[Find(u, IdOf(x)).i := Used(x)])
  {
    var u, x := Removed(t, r), t[r].node.(value := v);
    RemovalDropsEntry(t, r);
    assert IdOf(x) !in Model(u);
    var h, i := PathLeadsToHole(t, r);
    FillHole(u, t[r := Free], r, h, i, x);
  }

  // ---- an entry that is lost ----

  /** Of two entries whose home is the last slot the second wraps to slot 0. */
  lemma EntryWraps<V>(n: nat, x: Node<V>, y: Node<V>)
    requires n >= 2 && x.hash % n == n - 1 && y.hash % n == n - 1 && IdOf(x) != IdOf(y)
    ensures Find<V>(Frees(n), IdOf(x)) == Vacant(n - 1)
    ensures Find(Frees(n)[n - 1 := Used(x)], IdOf(y)) == Vacant(0)
  {
    var one: Table<V> := Frees(n)[n - 1 := Used(x)];
    assert Find(one, IdOf(y)) == FindFrom(one, IdOf(y), n - 1, 0) == Vacant(0);
  }

  /** Once the first of the two is removed nothing moves, and the second is stored but not found. */
  lemma WrappedEntryIsLost<V>(n: nat, x: Node<V>, y: Node<V>)
    requires n >= 2 && x.hash % n == n - 1 && y.hash % n == n - 1 && IdOf(x) != IdOf(y)
    ensures var t := Frees(n)[n - 1 := Used(x)][0 := Used(y)];
            && Find(t, IdOf(x)) == Found(n - 1)
            && Removed(t, n - 1) == t[n - 1 := Free]
            && Find(t[n - 1 := Free], IdOf(y)) == Vacant(n - 1)
  {
    var u := Frees(n)[n - 1 := Used(x)][0 := Used(y)][n - 1 := Free];
    assert Settle(u, n - 1) == u;
    assert Pass(u, n - 1, n - 1, true) == Pass(u, n - 1, n, true) == u;
  }
}
