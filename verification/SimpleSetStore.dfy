/** The SimpleSet object of dse/clib/collections/set.c: the node array and the counter, changed in place. */
module SimpleSetStore {
  import opened Widths
  import opened Probing
  import opened Relayout
  import opened SetAlgebra
  import opened SimpleSets
  import opened TableOps

  class SimpleSet {
    var nodes: array<Slot<()>>
    var usedNodes: nat
    const hash: Hash

    ghost function State(): SetState
      reads this, nodes
    {
      SetState(nodes[..], usedNodes)
    }

    /** A set built by the constructor and changed by guarded operations only. */
    ghost predicate Valid()
      reads this, nodes
    {
      Healthy(State(), hash)
    }

    ghost function Elements(): set<string>
      reads this, nodes
    {
      Members(nodes[..])
    }

    /** set_init_alt with a caller's hash function. */
    constructor (numEls: nat, hash: Hash)
      ensures this.hash == hash && fresh(nodes)
      ensures State() == Empty(numEls)
      ensures numEls > 0 ==> Valid() && Elements() == {}
    {
      this.hash := hash;
      nodes := new Slot<()>[numEls](i => Free);
      usedNodes := 0;
      new;
      assert nodes[..] == Frees(numEls);
      if numEls > 0 {
        EmptyIsHealthy(numEls, hash);
      }
    }

    method ContainsHashed(key: string, h: nat) returns (rc: Rc)
      requires nodes.Length > 0
      ensures rc == ContainsIn(nodes[..], (key, h))
    {
      var r := ProbeArray(nodes, key, h);
      rc := if r.Found? then SetTrue else if r.Vacant? then SetFalse else CircularError;
    }

    /** set_contains. */
    method Contains(key: string) returns (rc: Rc)
      requires nodes.Length > 0
      ensures rc == ContainsIn(nodes[..], (key, hash(key)))
      ensures Valid() ==> (rc == SetTrue <==> key in Elements())
    {
      rc := ContainsHashed(key, hash(key));
      if Valid() {
        ContainsIsMembership(State(), hash, key);
      }
    }

    /** The doubling in __set_add. */
    method Grow()
      requires nodes.Length > 0
      modifies this, nodes
      ensures fresh(nodes) && nodes[..] == Grown(old(nodes[..])) && usedNodes == old(usedNodes)
    {
      var n := nodes.Length;
      var tmp := new Slot<()>[n * 2](i => Free);
      var i := 0;
      while i < n
        invariant 0 <= i <= n == nodes.Length && fresh(tmp) && tmp.Length == n * 2
        invariant nodes == old(nodes) && usedNodes == old(usedNodes)
        invariant tmp[..i] == nodes[..i] && nodes[..] == old(nodes[..])
        invariant forall j :: i <= j < n * 2 ==> tmp[j] == Free
      {
        tmp[i] := nodes[i];
        i := i + 1;
      }
      assert tmp[..] == nodes[..] + Frees(n);
      nodes := tmp;
      var settled := RelayoutNodes(nodes, 0, false);
    }

    /** __set_add. */
    method AddHashed(key: string, h: nat) returns (rc: Rc)
      requires nodes.Length > 0
      modifies this, nodes
      ensures nodes == old(nodes) || fresh(nodes)
      ensures (State(), rc) == AddTo(old(State()), (key, h))
      ensures old(Find(nodes[..], (key, h)).Found?) ==> nodes == old(nodes)
    {
      var present := ContainsHashed(key, h);
      if present == SetTrue {
        return AlreadyPresent;
      }
      if 4 * usedNodes > nodes.Length {
        Grow();
      }
      var r := ProbeArray(nodes, key, h);
      if r.Vacant? {
        nodes[r.i] := Used(Node(key, h, ()));
        usedNodes := usedNodes + 1;
        rc := SetTrue;
      } else {
        rc := if r.Found? then SetTrue else CircularError;
      }
    }

    /** set_add. */
    method Add(key: string) returns (rc: Rc)
      requires nodes.Length > 0
      modifies this, nodes
      ensures nodes == old(nodes) || fresh(nodes)
      ensures (State(), rc) == AddTo(old(State()), (key, hash(key)))
      ensures old(Valid()) ==> Valid() && Elements() == old(Elements()) + {key}
    {
      ghost var s := State();
      rc := AddHashed(key, hash(key));
      if Healthy(s, hash) {
        AddRefines(s, hash, key);
      }
    }

    /** set_remove. */
    method Remove(key: string) returns (rc: Rc)
      requires nodes.Length > 0
      modifies this, nodes
      ensures nodes == old(nodes)
      ensures (State(), rc) == RemoveFrom(old(State()), (key, hash(key)))
      ensures old(Valid()) ==>
                && Elements() == old(Elements()) - {key}
                && (Valid() <==> old(RemovalGuarded(State(), (key, hash(key)))))
    {
      ghost var s := State();
      var r := ProbeArray(nodes, key, hash(key));
      if !r.Found? {
        rc := if r.Vacant? then SetFalse else CircularError;
      } else {
        nodes[r.i] := Free;
        assert nodes[..] == s.t[r.i := Free];
        var settled := RelayoutNodes(nodes, r.i, true);
        usedNodes := if usedNodes > 0 then usedNodes - 1 else MAX_COUNT;
        rc := SetTrue;
      }
      if Healthy(s, hash) {
        RemoveRefines(s, hash, key);
      }
    }

    /** One turn of that loop: the key is added if the lookup says so. */
    method Offer(key: string, h: nat, other: SimpleSet?, wanted: bool)
      requires nodes.Length > 0
      requires other != null && other != this ==> other.nodes.Length > 0 && other.nodes != nodes
      modifies this, nodes
      ensures nodes == old(nodes) || fresh(nodes)
      ensures other != this ==> State() == CollectOne(old(State()), Used(Node(key, h, ())), FilterOf(other, wanted))
      ensures other == this ==>
                State() == if wanted then old(State()) else CollectOne(old(State()), Used(Node(key, h, ())), All)
      ensures old(Find(nodes[..], (key, h)).Found?) ==> nodes == old(nodes) && State() == old(State())
    {
      LiveFilter(State(), Used(Node(key, h, ())));
      var take := true;
      if other != null {
        var present := other.ContainsHashed(key, h);
        take := (present == SetTrue) == wanted;
      }
      if take {
        var rc := AddHashed(key, h);
      }
    }

    /** The loop of the four constructors over one operand; `other` is the set looked into, if any, and
        `wanted` whether its keys are kept or left out.  Either may be the result itself. */
    method AddKeysOf(from: SimpleSet, other: SimpleSet?, wanted: bool)
      requires nodes.Length > 0
      requires if from == this then Ok(nodes[..]) else from.nodes != nodes
      requires other != null && other != this ==> other.nodes.Length > 0 && other.nodes != nodes
      modifies this, nodes
      ensures nodes == old(nodes) || fresh(nodes)
      ensures from == this || (other == this && wanted) ==> State() == old(State())
      ensures from != this && !(other == this && wanted) ==>
                State() == Collect(old(State()), from.nodes[..], 0, if other == this then All else FilterOf(other, wanted))
    {
      ghost var still := from == this || (other == this && wanted);
      ghost var f := if other == this then All else FilterOf(other, wanted);
      var i := 0;
      while i < from.nodes.Length
        invariant 0 <= i <= from.nodes.Length && nodes.Length > 0
        invariant nodes == old(nodes) || fresh(nodes)
        invariant still ==> State() == old(State())
        invariant from == this ==> nodes == old(nodes)
        invariant from != this ==> unchanged(from) && unchanged(from.nodes)
        invariant !still ==> Collect(State(), from.nodes[..], i, f) == Collect(old(State()), from.nodes[..], 0, f)
      {
        if from.nodes[i].Used? {
          if from == this {
            OwnKeyIsFound(nodes[..], i);
          }
          Offer(from.nodes[i].node.key, from.nodes[i].node.hash, other, wanted);
        }
        i := i + 1;
      }
    }

    static lemma OwnKeyIsFound(t: SetTable, i: nat)
      requires i < |t| && t[i].Used? && Ok(t)
      ensures Find(t, (t[i].node.key, t[i].node.hash)).Found?
    {
      FoundIffReachable(t, i);
    }

    static ghost function FilterOf(other: SimpleSet?, wanted: bool): (f: Filter)
      reads other, if other == null then {} else {other.nodes}
      ensures other != null && other.nodes.Length > 0 ==> Usable(f)
    {
      if other == null then All else if wanted then In(other.nodes[..]) else NotIn(other.nodes[..])
    }

    /** set_union, set_intersection, set_difference, set_symmetric_difference, with this set as result; it may
        be an operand too. */
    method Assign(op: Algebra, s1: SimpleSet, s2: SimpleSet) returns (rc: Rc)
      requires nodes.Length > 0 && s1.nodes.Length > 0 && s2.nodes.Length > 0
      requires (s1 != this ==> s1.nodes != nodes) && (s2 != this ==> s2.nodes != nodes)
      requires s1 == this || s2 == this ==> Compatible(s1) && Compatible(s2)
      modifies this, nodes
      ensures nodes == old(nodes) || fresh(nodes)
      ensures (State(), rc) == Combine(op, old(State()), old(s1.nodes[..]), old(s2.nodes[..]))
      ensures old(Compatible(s1) && Compatible(s2)) ==>
                && Valid()
                && (if old(Elements()) != {} then rc == OccupiedError && Elements() == old(Elements())
                    else rc == SetTrue && Elements() == SetOperation(op, old(s1.Elements()), old(s2.Elements())))
    {
      ghost var s, t1, t2 := State(), s1.nodes[..], s2.nodes[..];
      if Compatible(s1) && Compatible(s2) {
        CombineRefines(op, s, hash, t1, t2);
      }
      if usedNodes != 0 {
        return OccupiedError;
      }
      AssignUnused(op, s1, s2);
      rc := SetTrue;
    }

    ghost predicate Compatible(other: SimpleSet)
      reads this, nodes, other, other.nodes
    {
      Valid() && other.Valid() && other.hash == hash
    }

    method AssignUnused(op: Algebra, s1: SimpleSet, s2: SimpleSet)
      requires nodes.Length > 0 && s1.nodes.Length > 0 && s2.nodes.Length > 0 && usedNodes == 0
      requires (s1 != this ==> s1.nodes != nodes) && (s2 != this ==> s2.nodes != nodes)
      requires s1 == this || s2 == this ==> Compatible(s1) && Compatible(s2)
      modifies this, nodes
      ensures nodes == old(nodes) || fresh(nodes)
      ensures State() == Combine(op, old(State()), old(s1.nodes[..]), old(s2.nodes[..])).0
    {
      ghost var s, t1, t2 := State(), s1.nodes[..], s2.nodes[..];
      if s1 == this {
        UnusedIsFree(s, hash);
        FirstIsFree(s, t1, t2);
      }
      if s2 == this {
        UnusedIsFree(s, hash);
        SecondIsFree(s, t1, t2);
        CollectRefines(s, hash, t1, 0, All);
      }
      match op {
        case Union => AddKeysOf(s1, null, true); AddKeysOf(s2, null, true);
        case Intersection => AddKeysOf(s1, s2, true);
        case Difference => AddKeysOf(s1, s2, false);
        case SymmetricDifference => AddKeysOf(s1, s2, false); AddKeysOf(s2, s1, false);
      }
    }

    /** set_is_subset, with this set as the one tested. */
    method IsSubset(against: SimpleSet) returns (rc: Rc)
      requires against.nodes.Length > 0
      ensures rc == SubsetFrom(nodes[..], 0, against.nodes[..])
      ensures Valid() && against.Valid() && hash == against.hash ==>
                (rc == SetTrue <==> Elements() <= against.Elements() || Full(against.nodes[..]))
    {
      if Valid() && against.Valid() && hash == against.hash {
        SubsetExact(nodes[..], against.nodes[..], hash);
      }
      var i := 0;
      while i < nodes.Length
        invariant 0 <= i <= nodes.Length
        invariant SubsetFrom(nodes[..], i, against.nodes[..]) == SubsetFrom(nodes[..], 0, against.nodes[..])
      {
        if nodes[i].Used? {
          var present := against.ContainsHashed(nodes[i].node.key, nodes[i].node.hash);
          if present == SetFalse {
            return SetFalse;
          }
        }
        i := i + 1;
      }
      rc := SetTrue;
    }

    /** set_cmp, with this set on the left. */
    method CompareTo(right: SimpleSet) returns (r: Cmp)
      requires right.nodes.Length > 0
      ensures r == Compare(State(), right.State(), right.hash)
      ensures Valid() && right.Valid() && hash == right.hash ==>
                (r == Equal <==> Elements() == right.Elements())
    {
      if Valid() && right.Valid() && hash == right.hash {
        CompareExact(State(), right.State(), hash);
      }
      if usedNodes < right.usedNodes {
        return RightGreater;
      } else if right.usedNodes < usedNodes {
        return LeftGreater;
      }
      var i := 0;
      while i < nodes.Length
        invariant 0 <= i <= nodes.Length
        invariant CompareFrom(nodes[..], i, right.nodes[..], right.hash)
               == CompareFrom(nodes[..], 0, right.nodes[..], right.hash)
      {
        if nodes[i].Used? {
          var present := right.Contains(nodes[i].node.key);
          if present != SetTrue {
            return Unequal;
          }
        }
        i := i + 1;
      }
      r := Equal;
    }
  }
}
