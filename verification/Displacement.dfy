/** Why repeating the re-layout pass until nothing moves comes to an end, on any table whatever. */
module Displacement {
  import opened Probing
  import opened Relayout

  /** How far slot i lies behind home c on the probe path. */
  function Distance(n: nat, c: nat, i: nat): nat
    requires c < n && i < n
  {
    if c <= i then i - c else n - c + i
  }

  function Cost<V>(slot: Slot<V>, n: nat, i: nat): nat
    requires i < n
  {
    if slot.Free? then 0 else Distance(n, slot.node.hash % n, i) + 1
  }

  /** The summed displacements (each counted one more) of the entries below slot k. */
  function Sum<V>(t: Table<V>, k: nat): nat
    requires k <= |t|
  {
    if k == 0 then 0 else Sum(t, k - 1) + Cost(t[k - 1], |t|, k - 1)
  }

  lemma {:induction false} SumAfterWrite<V>(t: Table<V>, k: nat, i: nat, slot: Slot<V>)
    requires k <= |t| && i < |t|
    ensures Sum(t[i := slot], k) == Sum(t, k) + (if i < k then Cost(slot, |t|, i) - Cost(t[i], |t|, i) else 0)
  {
    if k > 0 {
      SumAfterWrite(t, k - 1, i, slot);
    }
  }

  /** Moving a node always shortens the total: its probe ended strictly before it came to the node. */
  lemma MoveShortens<V>(t: Table<V>, i: nat)
    requires i < |t| && t[i].Used? && Target(t, i) != i
    ensures Sum(Settle(t, i), |t|) < Sum(t, |t|)
  {
    var n, c, j := |t|, HomeAt(t, i), Target(t, i);
    assert Holds(t, i, IdOf(t[i].node));
    assert Between(c, j, i) by {
      assert !Between(c, i, j);
    }
    assert Distance(n, c, j) < Distance(n, c, i);
    SumAfterWrite(t, n, j, t[i]);
    SumAfterWrite(t[j := t[i]], n, i, Free);
  }

  lemma {:induction false} PassShortens<V>(t: Table<V>, start: nat, i: nat, stopAtFree: bool)
    requires i <= |t|
    ensures var u := Pass(t, start, i, stopAtFree);
            if Quiet(t, start, i, stopAtFree) then u == t else Sum(u, |t|) < Sum(t, |t|)
    decreases |t| - i
  {
    if i == |t| || (t[i].Free? && stopAtFree && i != start) {
    } else {
      PassShortens(Settle(t, i), start, i + 1, stopAtFree);
      if t[i].Used? && Target(t, i) != i {
        MoveShortens(t, i);
      }
    }
  }

  /** The loop of __allocate_hashmap: passes over the whole table until one moves nothing. */
  function Stabilised<V>(t: Table<V>): (u: Table<V>)
    ensures |u| == |t| && Quiet(u, 0, 0, false)
    decreases Sum(t, |t|)
  {
    PassShortens(t, 0, 0, false);
    if Quiet(t, 0, 0, false) then t else Stabilised(Pass(t, 0, 0, false))
  }

  /** The answer to the question the source leaves open: after a doubling the loop never needs more than
      one pass that moves anything. */
  lemma OnePassStabilises<V>(t: Table<V>)
    requires Distinct(t)
    ensures Stabilised(t + Frees(|t|)) == Grown(t)
    ensures Quiet(Grown(t), 0, 0, false)
  {
    var d := t + Frees(|t|);
    OnePassSuffices(t);
    PassOfOkIsQuiet(Grown(t), 0, 0, false);
    PassShortens(d, 0, 0, false);
    assert Stabilised(Grown(t)) == Grown(t);
  }
}
