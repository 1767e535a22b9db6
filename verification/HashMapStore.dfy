/** The HashMap object of hashmap.c and the HashList on top of it: the node array changed in place. */
module HashMapStore {
  import opened Widths
  import opened Probing
  import opened Relayout
  import opened Displacement
  import opened HashMaps
  import opened HashLists
  import opened Decimals
  import opened TableOps

  class HashMap {
    var nodes: array<Slot<Value>>
    var usedNodes: nat
    const hash: Hash

    ghost function State(): MapState
      reads this, nodes
    {
      MapState(nodes[..], usedNodes)
    }

    ghost predicate Valid()
      reads this, nodes
    {
      Healthy(State())
    }

    ghost function Contents(): map<Id, Value>
      requires Valid()
      reads this, nodes
    {
      Model(nodes[..])
    }

    /** hashmap_init_alt with a caller's hash function. */
    constructor (numEls: nat, hash: Hash)
      ensures this.hash == hash && fresh(nodes)
      ensures State() == Empty(numEls)
      ensures numEls > 0 ==> Valid() && Contents() == map[]
    {
      this.hash := hash;
      nodes := new Slot<Value>[numEls](i => Free);
      usedNodes := 0;
      new;
      assert nodes[..] == Frees(numEls);
      if numEls > 0 {
        EmptyIsHealthy(numEls);
      }
    }

    /** hashmap_clear. */
    method Clear()
      modifies this, nodes
      ensures nodes == old(nodes) && State() == Empty(nodes.Length)
    {
      var i := 0;
      while i < nodes.Length
        invariant 0 <= i <= nodes.Length && nodes == old(nodes)
        invariant forall j :: 0 <= j < i ==> nodes[j].Free?
      {
        if nodes[i].Used? {
          nodes[i] := Free;
        }
        i := i + 1;
      }
      usedNodes := 0;
      assert nodes[..] == Frees(nodes.Length);
    }

    /** hashmap_destroy: no slots are left. */
    method Destroy()
      modifies this, nodes
      ensures fresh(nodes) && State() == Empty(0)
    {
      Clear();
      nodes := new Slot<Value>[0];
      usedNodes := 0;
    }

    /** The lookup shared by hashmap_get, hashmap_get_by_uint32 and hashmap_get_by_hash32. */
    method GetHashed(key: string, h: nat) returns (ref: nat)
      requires nodes.Length > 0
      ensures ref == GetFrom(nodes[..], (key, h))
      ensures Valid() ==> ref == if (key, h) in Contents() then Contents()[(key, h)].ref else NULL
    {
      var r := ProbeArray(nodes, key, h);
      ref := if r.Found? then nodes[r.i].node.value.ref else NULL;
      if Valid() {
        GetRefines(nodes[..], (key, h));
      }
    }

    /** hashmap_get. */
    method Get(key: string) returns (ref: nat)
      requires nodes.Length > 0
      ensures ref == GetFrom(nodes[..], (key, hash(key)))
      ensures Valid() ==>
                ref == if (key, hash(key)) in Contents() then Contents()[(key, hash(key))].ref else NULL
    {
      ref := GetHashed(key, hash(key));
    }

    /** hashmap_get_by_uint32: the key is printed into a stack buffer. */
    method GetByUint32(key: nat) returns (ref: nat)
      requires nodes.Length > 0 && key < TWO_32
      ensures ref == GetFrom(nodes[..], (Decimal(key), hash(Decimal(key))))
    {
      var buf := new char[KEY_LEN + 1](i => '\0');
      var kp := ItoaInBuffer(buf, key);
      var k := buf[kp..KEY_LEN];
      ref := GetHashed(k, hash(k));
    }

    /** hashmap_get_by_hash32. */
    method GetByHash32(hash32: nat) returns (ref: nat)
      requires nodes.Length > 0 && hash32 < TWO_32
      ensures ref == GetFrom(nodes[..], Hash32Id(hash32))
    {
      var buf := new char[KEY_LEN + 1](i => '\0');
      var kp := ItoaInBuffer(buf, hash32);
      ref := GetHashed(buf[kp..KEY_LEN], hash32 + hash32 * TWO_32);
    }

    /** __allocate_hashmap with twice the slots: one pass after another until nothing moves. */
    method Grow()
      requires nodes.Length > 0
      modifies this, nodes
      ensures fresh(nodes) && usedNodes == old(usedNodes)
      ensures nodes[..] == Stabilised(old(nodes[..]) + Frees(old(nodes.Length)))
      ensures Distinct(old(nodes[..])) ==> nodes[..] == Grown(old(nodes[..]))
    {
      var n := nodes.Length;
      ghost var t := nodes[..];
      var tmp := new Slot<Value>[n * 2](i => Free);
      var i := 0;
      while i < n
        invariant 0 <= i <= n == nodes.Length && fresh(tmp) && tmp.Length == n * 2
        invariant nodes == old(nodes) && usedNodes == old(usedNodes) && nodes[..] == t
        invariant tmp[..i] == nodes[..i]
        invariant forall j :: i <= j < n * 2 ==> tmp[j] == Free
      {
        tmp[i] := nodes[i];
        i := i + 1;
      }
      assert tmp[..] == t + Frees(n);
      nodes := tmp;
      var q := false;
      while !q
        invariant fresh(nodes) && nodes.Length == 2 * n && usedNodes == old(usedNodes)
        invariant Stabilised(nodes[..]) == Stabilised(t + Frees(n))
        invariant q ==> Quiet(nodes[..], 0, 0, false)
        decreases Sum(nodes[..], nodes.Length), !q
      {
        PassShortens(nodes[..], 0, 0, false);
        q := RelayoutNodes(nodes, 0, false);
      }
      if Distinct(t) {
        OnePassStabilises(t);
      }
    }

    /** hashmap_set_by_hash64. */
    method SetHashed(key: string, h: nat, ref: nat, owned: bool) returns (ret: nat)
      requires nodes.Length > 0
      modifies this, nodes
      ensures nodes == old(nodes) || fresh(nodes)
      ensures (State(), ret) == PutIn(old(State()), (key, h), ref, owned)
    {
      if 4 * usedNodes >= nodes.Length {
        Grow();
      }
      var r := ProbeArray(nodes, key, h);
      if r.Circular? {
        ret := NULL;
      } else if r.Found? && nodes[r.i].node.value.ref != NULL {
        var node := nodes[r.i].node;
        nodes[r.i] := Used(node.(value := node.value.(ref := ref)));
        ret := if node.value.owned then ref else node.value.ref;
      } else {
        nodes[r.i] := Used(Node(key, h, Value(ref, owned)));
        usedNodes := usedNodes + 1;
        ret := ref;
      }
    }

    /** hashmap_set (owned is false) and hashmap_set_alt (owned is true). */
    method Set(key: string, ref: nat, owned: bool) returns (ret: nat)
      requires nodes.Length > 0
      modifies this, nodes
      ensures nodes == old(nodes) || fresh(nodes)
      ensures (State(), ret) == PutIn(old(State()), (key, hash(key)), ref, owned)
      ensures old(Valid()) ==> Valid()
    {
      ghost var s := State();
      ret := SetHashed(key, hash(key), ref, owned);
      if Healthy(s) {
        PutRefines(s, (key, hash(key)), ref, owned);
      }
    }

    /** hashmap_set_by_hash32 and hashmap_set_alt_by_hash32. */
    method SetByHash32(hash32: nat, ref: nat, owned: bool) returns (ret: nat)
      requires nodes.Length > 0 && hash32 < TWO_32
      modifies this, nodes
      ensures nodes == old(nodes) || fresh(nodes)
      ensures (State(), ret) == PutIn(old(State()), Hash32Id(hash32), ref, owned)
    {
      var buf := new char[KEY_LEN + 1](i => '\0');
      var kp := ItoaInBuffer(buf, hash32);
      ret := SetHashed(buf[kp..KEY_LEN], hash32 + hash32 * TWO_32, ref, owned);
    }

    /** hashmap_remove. */
    method Remove(key: string) returns (ret: nat)
      requires nodes.Length > 0
      modifies this, nodes
      ensures nodes == old(nodes)
      ensures (State(), ret) == RemoveFrom(old(State()), (key, hash(key)))
      ensures old(Valid()) ==> (Valid() <==> old(RemovalGuarded(State(), (key, hash(key)))))
    {
      ghost var s := State();
      var r := ProbeArray(nodes, key, hash(key));
      if r.Found? && nodes[r.i].node.value.ref != NULL {
        var value := nodes[r.i].node.value;
        ret := if value.owned then NULL else value.ref;
        nodes[r.i] := Free;
        assert nodes[..] == s.t[r.i := Free];
        usedNodes := if usedNodes > 0 then usedNodes - 1 else MAX_COUNT;
        var settled := RelayoutNodes(nodes, r.i, true);
      } else {
        ret := NULL;
      }
      if Healthy(s) {
        RemoveRefines(s, (key, hash(key)));
      }
    }
  }

  class HashList {
    const hashMap: HashMap

    ghost predicate Holds(e: seq<nat>)
      reads hashMap, hashMap.nodes
    {
      Represents(hashMap.State(), KeysOf(hashMap.hash), e)
    }

    /** hashlist_init. */
    constructor (numEls: nat, hash: Hash)
      ensures fresh(hashMap) && fresh(hashMap.nodes) && hashMap.hash == hash
      ensures numEls > 0 ==> Holds([])
    {
      hashMap := new HashMap(numEls, hash);
      new;
      if numEls > 0 {
        EmptyList(numEls, KeysOf(hash));
      }
    }

    /** hashlist_length. */
    method Length() returns (n: nat)
      ensures n == HashLists.Length(hashMap.State())
    {
      n := hashMap.usedNodes % TWO_32;
    }

    /** hashlist_append. */
    method Append(ref: nat)
      requires hashMap.nodes.Length > 0
      modifies hashMap, hashMap.nodes
      ensures hashMap.nodes == old(hashMap.nodes) || fresh(hashMap.nodes)
      ensures hashMap.State() == HashLists.Append(old(hashMap.State()), KeysOf(hashMap.hash), ref)
    {
      if ref != NULL {
        var n := Length();
        KeyOfPosition(hashMap.hash, n);
        var ret := hashMap.Set(ListKey(n), ref, false);
      }
    }

    /** hashlist_at. */
    method At(index: nat) returns (ref: nat)
      requires hashMap.nodes.Length > 0 && index < TWO_32
      ensures ref == HashLists.At(hashMap.State(), KeysOf(hashMap.hash), index)
    {
      KeyOfPosition(hashMap.hash, index);
      ref := hashMap.Get(ListKey(index));
    }

    /** hashlist_ntl: `contents` is what memory holds behind a pointer, `zero` an object of zeroes. */
    method Ntl<T>(contents: nat -> T, zero: T, destroy: bool) returns (a: array<T>)
      requires hashMap.nodes.Length > 0
      modifies hashMap, hashMap.nodes
      ensures fresh(a) && Copies(old(hashMap.State()), KeysOf(hashMap.hash), contents, zero, a[..])
      ensures hashMap.State() == if destroy then Empty(0) else old(hashMap.State())
    {
      a := CopyElements(contents, zero);
      if destroy {
        hashMap.Destroy();
      }
    }

    method CopyElements<T>(contents: nat -> T, zero: T) returns (a: array<T>)
      requires hashMap.nodes.Length > 0
      ensures fresh(a) && Copies(hashMap.State(), KeysOf(hashMap.hash), contents, zero, a[..])
    {
      ghost var s, key := hashMap.State(), KeysOf(hashMap.hash);
      var count := Length();
      a := new T[count + 1](i => zero);
      var i := 0;
      while i < count
        invariant 0 <= i <= count == HashLists.Length(s) && fresh(a) && a.Length == count + 1
        invariant hashMap.State() == s
        invariant forall j: nat :: j < i ==> a[j] == ObjectAt(contents, zero, HashLists.At(s, key, j))
        invariant forall j :: i <= j <= count ==> a[j] == zero
      {
        CopyElement(a, i, contents, zero);
        i := i + 1;
      }
    }

    method CopyElement<T>(a: array<T>, i: nat, contents: nat -> T, ghost zero: T)
      requires hashMap.nodes.Length > 0 && i < a.Length && i < TWO_32 && a[i] == zero
      requires (a as object) != (hashMap.nodes as object)
      modifies a
      ensures hashMap.State() == old(hashMap.State())
      ensures a[i] == ObjectAt(contents, zero, HashLists.At(old(hashMap.State()), KeysOf(hashMap.hash), i))
      ensures forall j :: 0 <= j < a.Length && j != i ==> a[j] == old(a[j])
    {
      var source := At(i);
      if source != NULL {
        a[i] := contents(source);
      }
    }
  }
}
