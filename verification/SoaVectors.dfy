/** The vector with separate index and item arrays of dse/clib/collections/vector.h, as functions on its value.
    The cells beyond length are part of the value: what they hold becomes visible again. */
module SoaVectors {
  import opened Options
  import opened SoaSorting

  datatype Rc = Success | Invalid | NoData

  /** The cells of both arrays, length and initial_capacity; no cells stand for arrays not allocated. */
  datatype Vec<I, T> = Vec(cells: seq<Pair<I, T>>, length: nat, initial: nat)

  predicate Valid<I, T>(v: Vec<I, T>) {
    v.length <= |v.cells| && v.initial > 0
  }

  function Entries<I, T>(v: Vec<I, T>): seq<Pair<I, T>>
    requires Valid(v)
  {
    v.cells[..v.length]
  }

  function Zeros<I, T>(zero: Pair<I, T>, n: nat): (r: seq<Pair<I, T>>)
    ensures |r| == n && forall i :: 0 <= i < n ==> r[i] == zero
  {
    seq(n, _ => zero)
  }

  /** vector_resize; a hint of 0 releases the storage. */
  function Resize<I, T>(v: Vec<I, T>, hint: nat, zero: Pair<I, T>): (Vec<I, T>, Rc)
    requires Valid(v)
  {
    if hint == 0 then (v.(cells := [], length := 0), Success)
    else if hint > v.length then (v.(cells := Entries(v) + Zeros(zero, hint - v.length)), Success)
    else (v, Invalid)
  }

  /** Room for one more entry. */
  function Roomy<I, T>(v: Vec<I, T>, zero: Pair<I, T>): (r: Vec<I, T>)
    requires Valid(v)
    ensures Valid(r) && r.length == v.length < |r.cells| && Entries(r) == Entries(v)
  {
    if |v.cells| == 0 then Resize(v, v.initial, zero).0
    else if v.length == |v.cells| then Resize(v, |v.cells| * 2, zero).0
    else v
  }

  /** vector_push_soa; NULL leaves the slot's key or item as it is. */
  function Push<I, T>(v: Vec<I, T>, key: Option<I>, item: Option<T>, zero: Pair<I, T>): (r: Vec<I, T>)
    requires Valid(v)
    ensures Valid(r)
  {
    var w := Roomy(v, zero);
    var slot := w.cells[v.length];
    var k := if key.Some? then key.value else slot.key;
    var x := if item.Some? then item.value else slot.item;
    w.(cells := w.cells[v.length := Pair(k, x)], length := v.length + 1)
  }

  /** vector_pop. */
  function Pop<I, T>(v: Vec<I, T>): (Vec<I, T>, Rc)
    requires Valid(v)
  {
    if v.length == 0 then (v, NoData) else (v.(length := v.length - 1), Success)
  }

  /** vector_delete_at: the later entries move down by one; the last slot keeps what it held. */
  function DeleteAt<I, T>(v: Vec<I, T>, i: nat): (Vec<I, T>, Rc)
    requires Valid(v)
  {
    if v.length == 0 then (v, NoData)
    else if i >= v.length then (v, Invalid)
    else (v.(cells := v.cells[..i] + v.cells[i + 1..v.length] + v.cells[v.length - 1..], length := v.length - 1), Success)
  }

  /** vector_sort. */
  function SortAll<I, T>(v: Vec<I, T>, cmp: (I, I) -> int): (Vec<I, T>, Rc)
    requires Valid(v)
  {
    if v.length == 0 then (v, NoData)
    else (v.(cells := Sort(cmp, Entries(v)) + v.cells[v.length..]), Success)
  }

  // ---- the entries ----

  /** Appending, deleting and sorting, on the entries alone. */
  lemma EntriesOfOperations<I, T>(v: Vec<I, T>, key: I, item: T, i: nat, cmp: (I, I) -> int, zero: Pair<I, T>)
    requires Valid(v)
    ensures Entries(Push(v, Some(key), Some(item), zero)) == Entries(v) + [Pair(key, item)]
    ensures Valid(SortAll(v, cmp).0) && Entries(SortAll(v, cmp).0) == Sort(cmp, Entries(v))
    ensures i < v.length ==>
              && Valid(DeleteAt(v, i).0) && DeleteAt(v, i).1 == Success
              && Entries(DeleteAt(v, i).0) == Entries(v)[..i] + Entries(v)[i + 1..]
  {
    if i < v.length {
      var tail := v.cells[v.length - 1..];
      assert (v.cells[..i] + v.cells[i + 1..v.length] + tail)[..v.length - 1] == v.cells[..i] + v.cells[i + 1..v.length];
    }
  }

  /** Resizing is refused, and then changes nothing, exactly for a hint from 1 to the length; otherwise the entries
      stay, with zeroes in all the room behind them, and a hint of 0 leaves nothing. */
  lemma ResizeExact<I, T>(v: Vec<I, T>, hint: nat, zero: Pair<I, T>)
    requires Valid(v)
    ensures var (w, rc) := Resize(v, hint, zero);
            && Valid(w) && w.initial == v.initial
            && (rc == Invalid <==> 1 <= hint <= v.length) && (rc == Success <==> rc != Invalid)
            && (rc == Invalid ==> w == v)
            && (rc == Success ==> |w.cells| == hint && Entries(w) == if hint == 0 then [] else Entries(v))
            && (rc == Success ==> forall i :: w.length <= i < hint ==> w.cells[i] == zero)
  {
  }

  /** Popping and deleting from an empty vector, and deleting behind the last entry, are refused and change nothing;
      sorting an empty vector is refused too.  Otherwise popping drops the last entry. */
  lemma RemovalExact<I, T>(v: Vec<I, T>, i: nat, cmp: (I, I) -> int)
    requires Valid(v)
    ensures var (w, rc) := Pop(v);
            && rc == (if v.length == 0 then NoData else Success) && w.cells == v.cells
            && Valid(w) && Entries(w) == if v.length == 0 then Entries(v) else Entries(v)[..v.length - 1]
    ensures var (w, rc) := DeleteAt(v, i);
            && (rc == NoData <==> v.length == 0) && (rc == Invalid <==> 0 < v.length <= i) && (rc != Success ==> w == v)
    ensures var (w, rc) := SortAll(v, cmp);
            && (rc == NoData <==> v.length == 0) && (rc == Success <==> v.length > 0) && (rc == NoData ==> w == v)
  {
  }

  /** Room for a push: the first capacity again after a release, twice the room when there is none left. */
  lemma PushGrows<I, T>(v: Vec<I, T>, key: Option<I>, item: Option<T>, zero: Pair<I, T>)
    requires Valid(v)
    ensures |Push(v, key, item, zero).cells|
         == if |v.cells| == 0 then v.initial else if |v.cells| == v.length then 2 * |v.cells| else |v.cells|
  {
  }

  /** Deleting keeps a sorted vector sorted, so a find needs no new sort. */
  lemma DeleteKeepsOrder<I(!new), T>(v: Vec<I, T>, i: nat, cmp: (I, I) -> int, zero: Pair<I, T>)
    requires Valid(v) && i < v.length && Sorted(cmp, Entries(v))
    ensures Valid(DeleteAt(v, i).0) && Sorted(cmp, Entries(DeleteAt(v, i).0))
    ensures multiset(Entries(v)) == multiset(Entries(DeleteAt(v, i).0)) + multiset{v.cells[i]}
  {
    EntriesOfOperations(v, v.cells[i].key, v.cells[i].item, i, cmp, zero);
    SortedWithout(cmp, Entries(v), i);
    var s := Entries(v);
    assert s == s[..i] + [s[i]] + s[i + 1..];
  }

  lemma SortedWithout<I, T>(cmp: (I, I) -> int, s: seq<Pair<I, T>>, i: nat)
    requires Sorted(cmp, s) && i < |s|
    ensures Sorted(cmp, s[..i] + s[i + 1..])
  {
    var r := s[..i] + s[i + 1..];
    forall j, k | 0 <= j < k < |r| ensures cmp(r[j].key, r[k].key) <= 0 {
      assert r[j] == s[if j < i then j else j + 1];
      assert r[k] == s[if k < i then k else k + 1];
    }
  }

  // ---- NULL arguments ----

  /** The entry the documentation promises: zero where an argument is NULL. */
  function Promised<I, T>(key: Option<I>, item: Option<T>, zero: Pair<I, T>): Pair<I, T> {
    Pair(if key.Some? then key.value else zero.key, if item.Some? then item.value else zero.item)
  }

  /** The slot behind the last entry holds zero in each part for which the argument is NULL. */
  predicate ZeroBehind<I(==), T(==)>(v: Vec<I, T>, key: Option<I>, item: Option<T>, zero: Pair<I, T>)
    requires v.length < |v.cells|
  {
    && (key.Some? || v.cells[v.length].key == zero.key)
    && (item.Some? || v.cells[v.length].item == zero.item)
  }

  /** A push appends one entry, and the promised one exactly if the vector is full (new storage is zero) or the
      slot behind the last entry holds zero where an argument is NULL. */
  lemma PushExact<I, T>(v: Vec<I, T>, key: Option<I>, item: Option<T>, zero: Pair<I, T>)
    requires Valid(v)
    ensures var n, e := v.length, Entries(Push(v, key, item, zero));
            && |e| == n + 1 && e[..n] == Entries(v)
            && (e[n] == Promised(key, item, zero) <==> n == |v.cells| || ZeroBehind(v, key, item, zero))
  {
    var n, w := v.length, Roomy(v, zero);
    assert n == |v.cells| ==> w.cells[n] == zero;
    assert n < |v.cells| ==> w == v;
    assert Entries(Push(v, key, item, zero))[..n] == Entries(w);
  }

  /** Right after a removal, however many came before, the slot behind the last entry holds what the last entry
      held, so the next push keeps the promise exactly if that entry was zero where the argument is NULL. */
  lemma PushAfterRemoval<I, T>(v: Vec<I, T>, op: Op<I, T>, key: Option<I>, item: Option<T>, cmp: (I, I) -> int, zero: Pair<I, T>)
    requires Valid(v) && v.length > 0 && (op.PopOp? || (op.DeleteOp? && op.i < v.length))
    ensures var w, last := Apply(v, op, cmp, zero), v.cells[v.length - 1];
            var e := Entries(Push(w, key, item, zero));
            && w.length == v.length - 1 && |e| == v.length
            && e[v.length - 1] == Pair(if key.Some? then key.value else last.key, if item.Some? then item.value else last.item)
            && (e[v.length - 1] == Promised(key, item, zero)
                <==> (key.Some? || last.key == zero.key) && (item.Some? || last.item == zero.item))
  {
    var w := Apply(v, op, cmp, zero);
    assert w.cells[w.length] == v.cells[v.length - 1];
    assert Roomy(w, zero) == w;
    PushExact(w, key, item, zero);
  }

  // ---- NULL arguments over whole runs ----

  datatype Op<I, T> = PushOp(key: Option<I>, item: Option<T>) | PopOp | DeleteOp(i: nat) | ResizeOp(hint: nat) | SortOp

  function Apply<I, T>(v: Vec<I, T>, op: Op<I, T>, cmp: (I, I) -> int, zero: Pair<I, T>): (w: Vec<I, T>)
    requires Valid(v)
    ensures Valid(w)
  {
    match op
    case PushOp(key, item) => Push(v, key, item, zero)
    case PopOp => Pop(v).0
    case DeleteOp(i) => DeleteAt(v, i).0
    case SortOp => SortAll(v, cmp).0
    case ResizeOp(hint) => Resize(v, hint, zero).0
  }

  /** A vector, and the highest length since its storage was last allocated. */
  datatype History<I, T> = History(v: Vec<I, T>, high: nat)

  /** vector_make_soa with this capacity. */
  function Made<I, T>(capacity: nat, zero: Pair<I, T>): History<I, T> {
    History(Vec(Zeros(zero, capacity), 0, capacity), 0)
  }

  function Max(a: nat, b: nat): nat {
    if a < b then b else a
  }

  function Step<I, T>(h: History<I, T>, op: Op<I, T>, cmp: (I, I) -> int, zero: Pair<I, T>): (g: History<I, T>)
    requires Valid(h.v)
    ensures Valid(g.v)
  {
    var w := Apply(h.v, op, cmp, zero);
    match op
    case PushOp(_, _) =>
      History(w, if h.v.length == |h.v.cells| then h.v.length + 1 else Max(h.high, h.v.length + 1))
    case ResizeOp(hint) => History(w, if hint == 0 || hint > h.v.length then w.length else h.high)
    case _ => h.(v := w)
  }

  function Run<I, T>(h: History<I, T>, ops: seq<Op<I, T>>, cmp: (I, I) -> int, zero: Pair<I, T>): (g: History<I, T>)
    requires Valid(h.v)
    ensures Valid(g.v)
    decreases |ops|
  {
    if ops == [] then h else Run(Step(h, ops[0], cmp, zero), ops[1..], cmp, zero)
  }

  /** Above the highest length all slots are zero. */
  predicate Clean<I(==), T(==)>(h: History<I, T>, zero: Pair<I, T>) {
    && Valid(h.v) && h.v.length <= h.high <= |h.v.cells|
    && forall i :: h.high <= i < |h.v.cells| ==> h.v.cells[i] == zero
  }

  lemma StepIsClean<I, T>(h: History<I, T>, op: Op<I, T>, cmp: (I, I) -> int, zero: Pair<I, T>)
    requires Clean(h, zero)
    ensures Clean(Step(h, op, cmp, zero), zero)
  {
  }

  lemma {:induction false} RunIsClean<I, T>(h: History<I, T>, ops: seq<Op<I, T>>, cmp: (I, I) -> int, zero: Pair<I, T>)
    requires Clean(h, zero)
    ensures Clean(Run(h, ops, cmp, zero), zero)
    decreases |ops|
  {
    if ops != [] {
      StepIsClean(h, ops[0], cmp, zero);
      RunIsClean(Step(h, ops[0], cmp, zero), ops[1..], cmp, zero);
    }
  }

  /** After any run, a push with any NULL arguments keeps the promise when no entry has been removed since the
      storage was last allocated, that is, when the length is at its highest; below that, exactly if the slot
      holds zero where an argument is NULL. */
  lemma PushAfterRun<I, T>(capacity: nat, ops: seq<Op<I, T>>, key: Option<I>, item: Option<T>,
                           cmp: (I, I) -> int, zero: Pair<I, T>)
    requires capacity > 0
    ensures var h := Run(Made(capacity, zero), ops, cmp, zero);
            var n, e := h.v.length, Entries(Push(h.v, key, item, zero));
            && n <= h.high <= |h.v.cells| && |e| == n + 1 && e[..n] == Entries(h.v)
            && (e[n] == Promised(key, item, zero) <==> n == h.high || ZeroBehind(h.v, key, item, zero))
  {
    var h := Run(Made(capacity, zero), ops, cmp, zero);
    RunIsClean(Made(capacity, zero), ops, cmp, zero);
    PushExact(h.v, key, item, zero);
    assert h.v.length == h.high < |h.v.cells| ==> h.v.cells[h.v.length] == zero;
  }

  /** The highest length is all that can be said without looking at the slot: wherever the length is below it,
      there is a run that gets there and breaks the promise. */
  lemma HighIsNeeded<I, T>(capacity: nat, n: nat, high: nat, x: Pair<I, T>, cmp: (I, I) -> int, zero: Pair<I, T>)
    requires n < high <= capacity && x != zero
    ensures exists ops: seq<Op<I, T>> ::
              var h := Run(Made(capacity, zero), ops, cmp, zero);
              && h.v.length == n && h.high == high && |h.v.cells| == capacity
              && Entries(Push(h.v, None, None, zero)) != Entries(h.v) + [zero]
  {
    var pushes: seq<Op<I, T>> := seq(high, _ => PushOp(Some(x.key), Some(x.item)));
    var pops: seq<Op<I, T>> := seq(high - n, _ => PopOp);
    var start := Made(capacity, zero);
    ManyPushes(start, high, x, cmp, zero);
    ManyPops(Run(start, pushes, cmp, zero), high - n, cmp, zero);
    RunConcat(start, pushes, pops, cmp, zero);
    var h := Run(start, pushes + pops, cmp, zero);
    assert h.v.cells[n] == x;
    var e := Entries(Push(h.v, None, None, zero));
    assert e[n] == x && (Entries(h.v) + [zero])[n] == zero;
  }

  lemma {:induction false} RunConcat<I, T>(h: History<I, T>, x: seq<Op<I, T>>, y: seq<Op<I, T>>, cmp: (I, I) -> int, zero: Pair<I, T>)
    requires Valid(h.v)
    ensures Run(h, x + y, cmp, zero) == Run(Run(h, x, cmp, zero), y, cmp, zero)
    decreases |x|
  {
    if x == [] {
      assert x + y == y;
    } else {
      assert (x + y)[1..] == x[1..] + y;
      RunConcat(Step(h, x[0], cmp, zero), x[1..], y, cmp, zero);
    }
  }

  lemma {:induction false} ManyPushes<I, T>(h: History<I, T>, k: nat, x: Pair<I, T>, cmp: (I, I) -> int, zero: Pair<I, T>)
    requires Valid(h.v) && h.v.length + k <= |h.v.cells| && h.high == h.v.length
    ensures var ops: seq<Op<I, T>> := seq(k, _ => PushOp(Some(x.key), Some(x.item)));
            var g := Run(h, ops, cmp, zero);
            && g.v.length == g.high == h.v.length + k && |g.v.cells| == |h.v.cells|
            && (forall i :: 0 <= i < h.v.length ==> g.v.cells[i] == h.v.cells[i])
            && (forall i :: h.v.length <= i < h.v.length + k ==> g.v.cells[i] == x)
    decreases k
  {
    var op: Op<I, T> := PushOp(Some(x.key), Some(x.item));
    var ops: seq<Op<I, T>> := seq(k, _ => op);
    if k > 0 {
      assert ops[1..] == seq(k - 1, _ => op);
      ManyPushes(Step(h, op, cmp, zero), k - 1, x, cmp, zero);
    }
  }

  lemma {:induction false} ManyPops<I, T>(h: History<I, T>, k: nat, cmp: (I, I) -> int, zero: Pair<I, T>)
    requires Valid(h.v) && k <= h.v.length
    ensures var ops: seq<Op<I, T>> := seq(k, _ => PopOp);
            Run(h, ops, cmp, zero) == h.(v := h.v.(length := h.v.length - k))
    decreases k
  {
    var ops: seq<Op<I, T>> := seq(k, _ => PopOp);
    if k > 0 {
      assert ops[1..] == seq(k - 1, _ => PopOp);
      ManyPops(Step(h, PopOp, cmp, zero), k - 1, cmp, zero);
    }
  }

  /** A run that breaks the promise: make a vector, push an entry, pop it, push NULL. */
  lemma StaleEntryComesBack(cmp: (nat, nat) -> int)
    ensures var zero := Pair(0, 0);
            var ops: seq<Op<nat, nat>> := [PushOp(Some(1), Some(2)), PopOp, PushOp(None, None)];
            Entries(Run(Made(64, zero), ops, cmp, zero).v) == [Pair(1, 2)]
  {
    var zero := Pair(0, 0);
    var h1 := Step(Made(64, zero), PushOp(Some(1), Some(2)), cmp, zero);
    var h2 := Step(h1, PopOp, cmp, zero);
    var h3 := Step(h2, PushOp(None, None), cmp, zero);
    var last: seq<Op<nat, nat>> := [PushOp(None, None)];
    var ops: seq<Op<nat, nat>> := [PushOp(Some(1), Some(2))] + ([PopOp] + last);
    assert ops[1..] == [PopOp] + last && ops[1..][1..] == last && last[1..] == [];
    assert ops == [PushOp(Some(1), Some(2)), PopOp, PushOp(None, None)];
    assert Run(h2, last, cmp, zero) == Run(h3, [], cmp, zero) == h3;
    assert Run(h1, ops[1..], cmp, zero) == h3;
    assert h3.v.cells[0] == Pair(1, 2);
  }
}
