/** The vector object, its two arrays changed in lock step. */
module SoaStore {
  import opened Options
  import opened SoaSorting
  import opened SoaVectors

  function Zip<I, T>(a: seq<I>, b: seq<T>): (r: seq<Pair<I, T>>)
    requires |a| == |b|
    ensures |r| == |a| && forall i :: 0 <= i < |a| ==> r[i] == Pair(a[i], b[i])
  {
    seq(|a|, i requires 0 <= i < |a| => Pair(a[i], b[i]))
  }

  lemma SortOne<I, T>(cmp: (I, I) -> int, s: seq<Pair<I, T>>)
    requires |s| > 0
    ensures Sort(cmp, s[..1]) == [s[0]]
  {
    assert s[..1][..0] == [];
  }

  lemma SortOneMore<I, T>(cmp: (I, I) -> int, s: seq<Pair<I, T>>, i: nat)
    requires i < |s|
    ensures Sort(cmp, s[..i + 1]) == Insert(cmp, Sort(cmp, s[..i]), s[i])
  {
    assert s[..i + 1][..i] == s[..i];
  }

  lemma MovedDown<P>(s: seq<P>, r: seq<P>, i: nat, n: nat)
    requires i < n <= |s| == |r|
    requires forall k :: i <= k < n - 1 ==> r[k] == s[k + 1]
    requires forall k :: 0 <= k < i || n - 1 <= k < |s| ==> r[k] == s[k]
    ensures r == s[..i] + s[i + 1..n] + s[n - 1..]
  {
  }

  /** One turn of the inner loop, and its end. */
  lemma SlotBelow<I, T>(cmp: (I, I) -> int, p: seq<Pair<I, T>>, j: nat, key: I)
    requires j <= |p|
    ensures j > 0 && cmp(p[j - 1].key, key) > 0 ==> Slot(cmp, p[..j], key) == Slot(cmp, p[..j - 1], key)
    ensures !(j > 0 && cmp(p[j - 1].key, key) > 0) ==> Slot(cmp, p[..j], key) == j
  {
    assert j > 0 ==> p[..j][..j - 1] == p[..j - 1];
  }

  lemma InsertCells<I, T>(cmp: (I, I) -> int, p: seq<Pair<I, T>>, x: Pair<I, T>)
    ensures var r, slot := Insert(cmp, p, x), Slot(cmp, p, x.key);
            && |r| == |p| + 1
            && forall k :: 0 <= k <= |p| ==> r[k] == if k < slot then p[k] else if k == slot then x else p[k - 1]
  {
  }

  lemma SortedCells<I, T>(cmp: (I, I) -> int, was: Vec<I, T>, got: Vec<I, T>, sorted: seq<Pair<I, T>>)
    requires SoaVectors.Valid(was) && was.length > 0 && sorted == Sort(cmp, Entries(was))
    requires got.length == was.length && got.initial == was.initial && |got.cells| == |was.cells|
    requires forall k :: 0 <= k < |got.cells| ==> got.cells[k] == if k < was.length then sorted[k] else was.cells[k]
    ensures got == SortAll(was, cmp).0
  {
    assert got.cells == sorted + was.cells[was.length..];
  }

  class SoaVector<I(!new), T> {
    var index: array<I>
    var items: array<T>
    var length: nat
    const initial: nat
    const cmp: (I, I) -> int
    const zero: Pair<I, T>

    ghost predicate Ready()
      reads this
    {
      && index.Length == items.Length && length <= index.Length && initial > 0
      && (index as object) != (items as object)
    }

    function Value(): (v: Vec<I, T>)
      requires Ready()
      reads this, index, items
      ensures Valid(v)
    {
      Vec(Zip(index[..], items[..]), length, initial)
    }

    /** vector_make_soa; a capacity of 0 means the default. */
    constructor (capacity: nat, cmp: (I, I) -> int, zero: Pair<I, T>)
      ensures Ready() && fresh(index) && fresh(items) && this.cmp == cmp && this.zero == zero
      ensures var n := if capacity > 0 then capacity else 64;
              Value() == Vec(Zeros(zero, n), 0, n)
    {
      var n := if capacity > 0 then capacity else 64;
      index := new I[n](_ => zero.key);
      items := new T[n](_ => zero.item);
      length := 0;
      initial := n;
      this.cmp, this.zero := cmp, zero;
    }

    /** vector_resize. */
    method ResizeTo(hint: nat) returns (rc: Rc)
      requires Ready()
      modifies this
      ensures Ready() && (Value(), rc) == Resize(old(Value()), hint, zero)
      ensures unchanged(old(index)) && unchanged(old(items))
      ensures (index == old(index) && items == old(items)) || (fresh(index) && fresh(items))
    {
      if hint == 0 {
        index := new I[0];
        items := new T[0];
        length := 0;
        return Success;
      }
      if hint <= length {
        return Invalid;
      }
      ghost var was := Value();
      var oldIndex, oldItems, n := index, items, length;
      var key, item := zero.key, zero.item;
      index := new I[hint](i reads oldIndex => if 0 <= i < n <= oldIndex.Length then oldIndex[i] else key);
      items := new T[hint](i reads oldItems => if 0 <= i < n <= oldItems.Length then oldItems[i] else item);
      assert Value().cells == was.cells[..n] + Zeros(zero, hint - n);
      return Success;
    }

    /** The growth in vector_push_soa. */
    method Reserve()
      requires Ready()
      modifies this
      ensures Ready() && Value() == Roomy(old(Value()), zero)
      ensures unchanged(old(index)) && unchanged(old(items))
      ensures (index == old(index) && items == old(items)) || (fresh(index) && fresh(items))
    {
      if index.Length == 0 {
        var _ := ResizeTo(initial);
      } else if length == index.Length {
        var _ := ResizeTo(index.Length * 2);
      }
    }

    /** vector_push_soa; None is a NULL pointer. */
    method PushEntry(key: Option<I>, item: Option<T>)
      requires Ready()
      modifies this, index, items
      ensures Ready() && Value() == Push(old(Value()), key, item, zero)
      ensures (index == old(index) && items == old(items)) || (fresh(index) && fresh(items))
    {
      Reserve();
      length := length + 1;
      WriteLast(key, item);
    }

    method WriteLast(key: Option<I>, item: Option<T>)
      requires Ready() && length > 0
      modifies index, items
      ensures Ready()
      ensures var was := old(Value());
              var slot := was.cells[length - 1];
              var p := Pair(if key.Some? then key.value else slot.key, if item.Some? then item.value else slot.item);
              Value() == was.(cells := was.cells[length - 1 := p])
    {
      ghost var was := Value();
      if key.Some? {
        index[length - 1] := key.value;
      }
      if item.Some? {
        items[length - 1] := item.value;
      }
      assert Value().cells == was.cells[length - 1 := Pair(index[length - 1], items[length - 1])];
    }

    /** vector_pop. */
    method PopEntry() returns (rc: Rc)
      requires Ready()
      modifies this`length
      ensures Ready() && (Value(), rc) == Pop(old(Value()))
    {
      if length == 0 {
        return NoData;
      }
      length := length - 1;
      return Success;
    }

    /** vector_delete_at. */
    method DeleteEntry(i: nat) returns (rc: Rc)
      requires Ready()
      modifies this`length, index, items
      ensures Ready() && (Value(), rc) == DeleteAt(old(Value()), i)
    {
      if length == 0 {
        return NoData;
      }
      if i >= length {
        return Invalid;
      }
      ghost var was, n := Value(), length;
      forall k | i <= k < length - 1 { index[k] := index[k + 1]; }
      forall k | i <= k < length - 1 { items[k] := items[k + 1]; }
      length := length - 1;
      MovedDown(was.cells, Value().cells, i, n);
      return Success;
    }

    /** vector_sort. */
    method SortEntries() returns (rc: Rc)
      requires Ready()
      modifies index, items
      ensures Ready() && (Value(), rc) == SortAll(old(Value()), cmp)
    {
      if length == 0 {
        return NoData;
      }
      SortItems();
      return Success;
    }

    /** vector_sort_soa_items. */
    method SortItems()
      requires Ready() && length > 0
      modifies index, items
      ensures Ready() && Value() == SortAll(old(Value()), cmp).0
    {
      ghost var was := Value();
      SortLoop(Entries(was));
      SortedCells(cmp, was, Value(), Sort(cmp, Entries(was)));
    }

    method SortLoop(ghost s: seq<Pair<I, T>>)
      requires Ready() && |s| == length > 0
      requires forall k :: 0 <= k < length ==> index[k] == s[k].key && items[k] == s[k].item
      modifies index, items
      ensures Ready()
      ensures forall k :: 0 <= k < length ==> index[k] == Sort(cmp, s)[k].key && items[k] == Sort(cmp, s)[k].item
      ensures forall k :: length <= k < index.Length ==> index[k] == old(index[k]) && items[k] == old(items[k])
    {
      ghost var sorted := Sort(cmp, s[..1]);
      SortOne(cmp, s);
      var i := 1;
      while i < length
        invariant 1 <= i <= length && |sorted| == i && sorted == Sort(cmp, s[..i])
        invariant forall k :: 0 <= k < i ==> index[k] == sorted[k].key && items[k] == sorted[k].item
        invariant forall k :: i <= k < index.Length ==> index[k] == old(index[k]) && items[k] == old(items[k])
      {
        SortOneMore(cmp, s, i);
        ghost var next := Insert(cmp, sorted, s[i]);
        assert s[i] == Pair(index[i], items[i]);
        SortStep(i, sorted, next);
        sorted := next;
        i := i + 1;
      }
      assert s[..length] == s;
    }

    /** One turn of the outer loop. */
    method SortStep(i: nat, ghost sorted: seq<Pair<I, T>>, ghost next: seq<Pair<I, T>>)
      requires Ready() && i < length && |sorted| == i
      requires forall k :: 0 <= k < i ==> index[k] == sorted[k].key && items[k] == sorted[k].item
      requires next == Insert(cmp, sorted, Pair(index[i], items[i]))
      modifies index, items
      ensures Ready()
      ensures |next| == i + 1 && forall k :: 0 <= k <= i ==> index[k] == next[k].key && items[k] == next[k].item
      ensures forall k :: i < k < index.Length ==> index[k] == old(index[k]) && items[k] == old(items[k])
    {
      InsertCells(cmp, sorted, Pair(index[i], items[i]));
      InsertAt(i, sorted, Slot(cmp, sorted, index[i]));
    }

    /** The inner loop: the entry at i moves down to its slot in the sorted entries before it. */
    method InsertAt(i: nat, ghost p: seq<Pair<I, T>>, ghost slot: nat)
      requires Ready() && i < length && |p| == i && slot == Slot(cmp, p, index[i])
      requires forall k :: 0 <= k < i ==> index[k] == p[k].key && items[k] == p[k].item
      modifies index, items
      ensures Ready()
      ensures slot <= i
      ensures forall k :: 0 <= k < slot ==> index[k] == p[k].key && items[k] == p[k].item
      ensures index[slot] == old(index[i]) && items[slot] == old(items[i])
      ensures forall k :: slot < k <= i ==> index[k] == p[k - 1].key && items[k] == p[k - 1].item
      ensures forall k :: i < k < index.Length ==> index[k] == old(index[k]) && items[k] == old(items[k])
    {
      var key, item := index[i], items[i];
      var j := i;
      assert p[..i] == p;
      while j > 0 && cmp(index[j - 1], key) > 0
        invariant 0 <= j <= i
        invariant slot == Slot(cmp, p[..j], key)
        invariant forall k :: 0 <= k < j ==> index[k] == p[k].key && items[k] == p[k].item
        invariant forall k :: j < k <= i ==> index[k] == p[k - 1].key && items[k] == p[k - 1].item
        invariant forall k :: i < k < index.Length ==> index[k] == old(index[k]) && items[k] == old(items[k])
      {
        SlotBelow(cmp, p, j, key);
        index[j] := index[j - 1];
        items[j] := items[j - 1];
        j := j - 1;
      }
      SlotBelow(cmp, p, j, key);
      index[j] := key;
      items[j] := item;
    }

    /** vector_find, with the C library's bsearch as a function. */
    method FindEntry(search: (seq<I>, I) -> Option<nat>, key: I, start: nat) returns (item: Option<T>)
      requires Ready() && Searches(search, cmp)
      ensures match Find(search, Entries(Value()), key, start)
              case Some(k) => k < length && item == Some(Entries(Value())[k].item)
              case None => item == None
    {
      if start >= length {
        return None;
      }
      var keys := index[start..length];
      assert keys == Keys(Entries(Value()))[start..];
      var found := search(keys, key);
      if found.None? {
        return None;
      }
      return Some(items[start + found.value]);
    }
  }
}
