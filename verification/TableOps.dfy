/** The two loops that walk the node array in place, proved equal to their functions on tables. */
module TableOps {
  import opened Probing
  import opened Relayout

  /** __get_index and hashmap_get_node: probe upwards from the home slot, wrapping at the end. */
  method ProbeArray<V>(nodes: array<Slot<V>>, key: string, hash: nat) returns (r: Probe)
    requires nodes.Length > 0
    ensures r == Find(nodes[..], (key, hash))
  {
    var idx := hash % nodes.Length;
    var i: nat := idx;
    ghost var t := nodes[..];
    while true
      invariant i < nodes.Length && Passed(t, (key, hash), idx, i)
      invariant FindFrom(t, (key, hash), idx, i) == Find(t, (key, hash))
      decreases if i >= idx then nodes.Length - i + idx else idx - i
    {
      if nodes[i].Free? {
        return Vacant(i);
      } else if hash == nodes[i].node.hash && key == nodes[i].node.key {
        return Found(i);
      }
      i := i + 1;
      if i == nodes.Length {
        i := 0;
      }
      if i == idx {
        return Circular;
      }
    }
  }

  /** The body of the re-layout loop for a used slot. */
  method SettleSlot<V>(nodes: array<Slot<V>>, i: nat) returns (moved: bool)
    requires i < nodes.Length && nodes[i].Used?
    modifies nodes
    ensures nodes[..] == Settle(old(nodes[..]), i)
    ensures moved <==> Target(old(nodes[..]), i) != i
  {
    ghost var t := nodes[..];
    var r := ProbeArray(nodes, nodes[i].node.key, nodes[i].node.hash);
    assert Holds(t, i, IdOf(t[i].node));
    var index := r.i;
    moved := i != index;
    if moved {
      nodes[index] := nodes[i];
      nodes[i] := Free;
    }
  }

  /** __relayout_nodes: visit the slots from `start` upwards and move each node to where its probe ends.
      The result says whether no node was moved. */
  method RelayoutNodes<V>(nodes: array<Slot<V>>, start: nat, stopAtFree: bool) returns (settled: bool)
    requires start <= nodes.Length
    modifies nodes
    ensures nodes[..] == Pass(old(nodes[..]), start, start, stopAtFree)
    ensures settled == Quiet(old(nodes[..]), start, start, stopAtFree)
  {
    settled := true;
    ghost var t := nodes[..];
    var i := start;
    while i < nodes.Length
      invariant start <= i <= nodes.Length
      invariant Pass(nodes[..], start, i, stopAtFree) == Pass(t, start, start, stopAtFree)
      invariant Quiet(t, start, start, stopAtFree) == (settled && Quiet(nodes[..], start, i, stopAtFree))
    {
      if nodes[i].Used? {
        var moved := SettleSlot(nodes, i);
        settled := settled && !moved;
      } else if stopAtFree && i != start {
        break;
      }
      i := i + 1;
    }
  }
}
