/** The re-layout pass that set.c and hashmap.c share, as a function on tables. */
module Relayout {
  import opened Probing

  /** Where the probe for the entry stored in slot i ends.  It cannot come back to its start: the entry
      itself is in the table. */
  function Target<V>(t: Table<V>, i: nat): (j: nat)
    requires i < |t| && t[i].Used?
    ensures j < |t|
  {
    assert Holds(t, i, IdOf(t[i].node));
    Find(t, IdOf(t[i].node)).i
  }

  /** One visit of slot i: move the node stored there to its target. */
  function Settle<V>(t: Table<V>, i: nat): (u: Table<V>)
    requires i < |t|
    ensures |u| == |t|
  {
    if t[i].Free? then t else Move(t, i, Target(t, i))
  }

  function Move<V>(t: Table<V>, i: nat, j: nat): (u: Table<V>)
    requires i < |t| && j < |t|
    ensures |u| == |t|
  {
    if i == j then t else t[j := t[i]][i := Free]
  }

  /** __relayout_nodes from slot i on, after a start at `start`.  Unless `stopAtFree`, every slot up to the
      end of the array is visited; otherwise the pass ends at the first free slot other than the start. */
  function Pass<V>(t: Table<V>, start: nat, i: nat, stopAtFree: bool): (u: Table<V>)
    requires i <= |t|
    ensures |u| == |t|
    decreases |t| - i
  {
    if i == |t| || (t[i].Free? && stopAtFree && i != start) then t
    else Pass(Settle(t, i), start, i + 1, stopAtFree)
  }

  /** Whether that pass leaves every node where it is: the result hashmap.c's pass returns. */
  predicate Quiet<V>(t: Table<V>, start: nat, i: nat, stopAtFree: bool)
    requires i <= |t|
    decreases |t| - i
  {
    if i == |t| || (t[i].Free? && stopAtFree && i != start) then true
    else (t[i].Used? ==> Target(t, i) == i) && Quiet(Settle(t, i), start, i + 1, stopAtFree)
  }

  /** With no duplicates, a visited entry is found where it is, or moves to a free slot its path leads to. */
  lemma ProbeOwnEntry<V>(t: Table<V>, i: nat)
    requires i < |t| && t[i].Used? && Distinct(t)
    ensures var r := Find(t, IdOf(t[i].node));
            && (r == Found(i) || (r.Vacant? && r.i < |t| && t[r.i].Free?))
            && PathFull(t, HomeAt(t, i), r.i)
            && (r.Vacant? ==> !Between(HomeAt(t, i), i, r.i) && Between(HomeAt(t, i), r.i, i))
  {
    assert Holds(t, i, IdOf(t[i].node));
  }

  /** A visit neither adds nor loses an entry and makes no duplicate. */
  lemma SettleKeepsNodes<V>(t: Table<V>, i: nat)
    requires i < |t| && Distinct(t)
    ensures Distinct(Settle(t, i))
    ensures Nodes(Settle(t, i)) == Nodes(t) && |Occupied(Settle(t, i))| == |Occupied(t)|
  {
    if t[i].Used? {
      ProbeOwnEntry(t, i);
      var j := Find(t, IdOf(t[i].node)).i;
      if j != i {
        MoveKeepsNodes(t, i, j);
        MoveKeepsCount(t, i, j);
      }
    }
  }

  lemma MoveKeepsCount<V>(t: Table<V>, i: nat, j: nat)
    requires i < |t| && j < |t| && t[i].Used? && t[j].Free?
    ensures Occupied(Move(t, i, j)) == Occupied(t) - {i} + {j}
    ensures |Occupied(Move(t, i, j))| == |Occupied(t)|
  {
    var a := Occupied(t);
    assert i in a && j !in a;
    forall k: nat ensures k in Occupied(Move(t, i, j)) <==> k in a - {i} + {j} {
    }
    assert |a - {i}| == |a| - 1;
  }

  lemma MoveKeepsNodes<V>(t: Table<V>, i: nat, j: nat)
    requires i < |t| && j < |t| && t[i].Used? && t[j].Free? && Distinct(t)
    ensures Distinct(Move(t, i, j)) && Nodes(Move(t, i, j)) == Nodes(t)
  {
    var u := Move(t, i, j);
    forall x | x in Nodes(t) ensures x in Nodes(u) {
      var k: nat :| k < |t| && t[k].Used? && t[k].node == x;
      assert if k == i then u[j].node == x else u[k].node == x;
    }
    forall x | x in Nodes(u) ensures x in Nodes(t) {
      var k: nat :| k < |u| && u[k].Used? && u[k].node == x;
      assert if k == j then t[i].node == x else t[k].node == x;
    }
  }

  lemma {:induction false} PassKeepsNodes<V>(t: Table<V>, start: nat, i: nat, stopAtFree: bool)
    requires i <= |t| && Distinct(t)
    ensures var u := Pass(t, start, i, stopAtFree);
            Distinct(u) && Nodes(u) == Nodes(t) && |Occupied(u)| == |Occupied(t)| && Model(u) == Model(t)
    decreases |t| - i
  {
    if i == |t| || (t[i].Free? && stopAtFree && i != start) {
    } else {
      SettleKeepsNodes(t, i);
      PassKeepsNodes(Settle(t, i), start, i + 1, stopAtFree);
    }
    ModelFromNodes(t, Pass(t, start, i, stopAtFree));
  }

  /** A healthy table is a fixed point of the pass, and the pass reports so. */
  lemma {:induction false} PassOfOkIsQuiet<V>(t: Table<V>, start: nat, i: nat, stopAtFree: bool)
    requires i <= |t| && Ok(t)
    ensures Pass(t, start, i, stopAtFree) == t && Quiet(t, start, i, stopAtFree)
    decreases |t| - i
  {
    if i == |t| || (t[i].Free? && stopAtFree && i != start) {
    } else {
      if t[i].Used? {
        FoundIffReachable(t, i);
      }
      PassOfOkIsQuiet(t, start, i + 1, stopAtFree);
    }
  }

  // ---- one pass after doubling ----

  function Frees<V>(n: nat): (t: Table<V>)
    ensures |t| == n && forall i :: 0 <= i < n ==> t[i].Free?
  {
    seq(n, i => Free)
  }

  /** The array doubled, the new upper half free, then one pass over all of it. */
  function Grown<V>(t: Table<V>): (u: Table<V>)
    ensures |u| == 2 * |t|
  {
    Pass(t + Frees(|t|), 0, 0, false)
  }

  /** Entries of the upper half [n, 2n) sit above their home, with no gap below them in that half. */
  ghost predicate UpperOk<V>(t: Table<V>, n: nat)
    requires |t| == 2 * n
  {
    forall p: nat :: n <= p < 2 * n && t[p].Used? ==>
      HomeAt(t, p) <= p && forall j: nat :: n <= j < p && HomeAt(t, p) <= j ==> t[j].Used?
  }

  /** While the pass is in the lower half, before visiting slot i. */
  ghost predicate LowerPhase<V>(t: Table<V>, n: nat, i: nat) {
    && |t| == 2 * n && i <= n
    && Distinct(t) && |Occupied(t)| <= n
    && UpperOk(t, n)
    && forall p: nat :: p < i && t[p].Used? ==> Reachable(t, p)
  }

  /** While the pass is in the upper half: f is the table it found on entering that half. */
  ghost predicate UpperPhase<V>(t: Table<V>, f: Table<V>, n: nat, i: nat) {
    && |t| == |f| == 2 * n && n <= i <= 2 * n
    && Distinct(t) && |Occupied(f)| <= n
    && UpperOk(f, n)
    && (forall p: nat :: i <= p < 2 * n ==> t[p] == f[p])
    && (forall p: nat :: p < n && t[p].Used? ==> Reachable(t, p) && (t[p] == f[p] || HomeAt(t, p) <= p))
    && (forall p: nat :: n <= p < i && t[p].Used? ==> Reachable(t, p) && HomeAt(t, p) <= p)
    && (forall v: nat :: n <= v < i && t[v].Free? && f[v].Used? ==> FullFrom(f, n, v))
  }

  ghost predicate FullFrom<V>(t: Table<V>, lo: nat, hi: nat) {
    forall j: nat :: lo <= j <= hi && j < |t| ==> t[j].Used?
  }

  /** With no more than n entries, an entry reached by wrapping round has its home in the upper half. */
  lemma WrapNeedsUpperHome<V>(t: Table<V>, n: nat, c: nat, p: nat)
    requires |t| == 2 * n && |Occupied(t)| <= n && p < c < |t|
    requires PathFull(t, c, p) && (t[p].Used? || exists q: nat :: p < q < c && t[q].Used?)
    ensures c > n + p
  {
    var q: nat :| p <= q < c && t[q].Used?;
    var path := Interval(0, p) + Interval(c, 2 * n) + {q};
    PathSize(n, c, p, q);
    forall j | j in path ensures j in Occupied(t) {
      assert j < |t| && t[j].Used?;
    }
    SubsetSize(path, Occupied(t));
  }

  lemma PathSize(n: nat, c: nat, p: nat, q: nat)
    requires p <= q < c < 2 * n
    ensures |Interval(0, p) + Interval(c, 2 * n) + {q}| == p + (2 * n - c) + 1
  {
    var a, b := Interval(0, p), Interval(c, 2 * n);
    IntervalSize(0, p);
    IntervalSize(c, 2 * n);
    assert a !! b && q !in a + b;
  }

  lemma LowerStep<V>(t: Table<V>, n: nat, i: nat)
    requires LowerPhase(t, n, i) && i < n
    ensures LowerPhase(Settle(t, i), n, i + 1)
  {
    SettleKeepsNodes(t, i);
    var u := Settle(t, i);
    if t[i].Used? {
      ProbeOwnEntry(t, i);
      var c, j := HomeAt(t, i), Find(t, IdOf(t[i].node)).i;
      if j < c {
        WrapNeedsUpperHome(t, n, c, j);
      }
      forall p: nat | p < i && t[p].Used? && p < HomeAt(t, p) ensures HomeAt(t, p) > n {
        assert Reachable(t, p);
        WrapNeedsUpperHome(t, n, HomeAt(t, p), p);
      }
      LowerStepReach(t, n, i, j);
    }
  }

  lemma LowerStepReach<V>(t: Table<V>, n: nat, i: nat, j: nat)
    requires LowerPhase(t, n, i) && i < n && t[i].Used? && j < |t|
    requires PathFull(t, HomeAt(t, i), j) && (j < HomeAt(t, i) ==> HomeAt(t, i) > n)
    requires forall p: nat :: p < i && t[p].Used? && p < HomeAt(t, p) ==> HomeAt(t, p) > n
    requires j != i ==> t[j].Free? && Between(HomeAt(t, i), j, i) && !Between(HomeAt(t, i), i, j)
    ensures forall p: nat :: p < i + 1 && Move(t, i, j)[p].Used? ==> Reachable(Move(t, i, j), p)
  {
    var u := Move(t, i, j);
    forall p: nat | p < i + 1 && u[p].Used? ensures Reachable(u, p) {
      if p != j {
        assert Reachable(t, p);
      }
    }
  }

  lemma UpperStep<V>(t: Table<V>, f: Table<V>, n: nat, i: nat)
    requires UpperPhase(t, f, n, i) && i < 2 * n
    ensures UpperPhase(Settle(t, i), f, n, i + 1)
  {
    SettleKeepsNodes(t, i);
    if t[i].Used? {
      ProbeOwnEntry(t, i);
      var j := Find(t, IdOf(t[i].node)).i;
      if j == i {
        assert Reachable(t, i);
      } else {
        VacatedAboveFullRun(t, f, n, i, j);
        UpperMove(t, f, n, i, j);
      }
    }
  }

  /** The key fact: when an upper slot is vacated, every upper slot up to it was full on entering that half. */
  lemma VacatedAboveFullRun<V>(t: Table<V>, f: Table<V>, n: nat, i: nat, j: nat)
    requires UpperPhase(t, f, n, i) && i < 2 * n && t[i].Used?
    requires j < 2 * n && t[j].Free? && Between(HomeAt(t, i), j, i)
    ensures HomeAt(t, i) <= j < i && FullFrom(f, n, i)
  {
    assert t[i] == f[i];
    assert HomeAt(f, i) <= i;
  }

  lemma UpperMove<V>(t: Table<V>, f: Table<V>, n: nat, i: nat, j: nat)
    requires UpperPhase(t, f, n, i) && i < 2 * n && t[i].Used?
    requires j < 2 * n && t[j].Free? && HomeAt(t, i) <= j < i && PathFull(t, HomeAt(t, i), j)
    requires FullFrom(f, n, i) && Distinct(Move(t, i, j))
    ensures UpperPhase(Move(t, i, j), f, n, i + 1)
  {
    var u := Move(t, i, j);
    assert t[i] == f[i];
    forall p: nat | p < i && t[p].Used? ensures Reachable(u, p) {
      assert Reachable(t, p);
      if p < HomeAt(t, p) <= i {
        WrappedEntryBlocks(t, f, n, i, p);
        assert false;
      }
    }
  }

  /** An entry that wrapped past the upper half leaves no room for such a full run below it. */
  lemma WrappedEntryBlocks<V>(t: Table<V>, f: Table<V>, n: nat, i: nat, p: nat)
    requires UpperPhase(t, f, n, i) && i < 2 * n && FullFrom(f, n, i)
    requires p < i && t[p].Used?
    ensures !(p < HomeAt(t, p) <= i)
  {
    if p < HomeAt(t, p) <= i {
      assert Reachable(t, p);
      assert p < n && t[p] == f[p];
      forall q: nat | n <= q < 2 * n ensures f[q].Used? {
        assert q > i ==> Between(HomeAt(t, p), q, p) && t[q] == f[q];
      }
      IntervalSize(n, 2 * n);
      SubsetSize(Interval(n, 2 * n) + {p}, Occupied(f));
      assert false;
    }
  }

  lemma {:induction false} LowerRun<V>(t: Table<V>, n: nat, i: nat)
    requires LowerPhase(t, n, i)
    ensures Ok(Pass(t, 0, i, false))
    decreases n - i
  {
    if i < n {
      LowerStep(t, n, i);
      LowerRun(Settle(t, i), n, i + 1);
    } else {
      forall p: nat | p < n && t[p].Used? ensures Reachable(t, p) {}
      UpperRun(t, t, n, i);
    }
  }

  lemma {:induction false} UpperRun<V>(t: Table<V>, f: Table<V>, n: nat, i: nat)
    requires UpperPhase(t, f, n, i)
    ensures Ok(Pass(t, 0, i, false))
    decreases 2 * n - i
  {
    if i < 2 * n {
      UpperStep(t, f, n, i);
      UpperRun(Settle(t, i), f, n, i + 1);
    }
  }

  /** One left-to-right pass is enough after doubling, whatever the old arrangement was:
      every entry is reachable from its new home, and the map is the one the old table held. */
  lemma OnePassSuffices<V>(t: Table<V>)
    requires Distinct(t)
    ensures Ok(Grown(t))
    ensures Nodes(Grown(t)) == Nodes(t) && |Occupied(Grown(t))| == |Occupied(t)| && Model(Grown(t)) == Model(t)
  {
    var d := t + Frees(|t|);
    assert Occupied(d) == Occupied(t);
    SizesAgree(t);
    NodesOfPadded(t);
    assert LowerPhase(d, |t|, 0);
    LowerRun(d, |t|, 0);
    PassKeepsNodes(d, 0, 0, false);
    ModelFromNodes(t, Grown(t));
  }

  lemma NodesOfPadded<V>(t: Table<V>)
    ensures Nodes(t + Frees(|t|)) == Nodes(t)
  {
    var d := t + Frees(|t|);
    forall x | x in Nodes(t) ensures x in Nodes(d) {
      var k: nat :| k < |t| && t[k].Used? && t[k].node == x;
      assert d[k] == t[k];
    }
  }
}
