/** Feeding the builder the event stream of a tree rebuilds the tree, and does so exactly for the buildable ones. */
module YamlRebuild {
  import opened Options
  import opened YamlTrees

  lemma {:induction false} RunConcat(o: Outcome, x: seq<Event>, y: seq<Event>)
    requires o.Going? ==> Sound(o.s)
    ensures Run(o, x + y) == Run(Run(o, x), y)
    decreases |x|
  {
    if x == [] {
      assert x + y == y;
    } else if o.Going? {
      assert (x + y)[1..] == x[1..] + y;
      RunConcat(Handle(o.s, x[0]), x[1..], y);
    }
  }

  lemma RunOne(s: State, e: Event)
    requires Sound(s)
    ensures Run(Going(s), [e]) == Handle(s, e)
  {
    assert [e][1..] == [];
  }

  /** The tree at i depends only on the nodes from i on. */
  lemma {:induction false} ViewIsLocal(h: seq<Node>, g: seq<Node>, i: nat)
    requires Linked(h) && Linked(g) && i < |h| <= |g|
    requires forall j :: i <= j < |h| ==> g[j] == h[j]
    ensures View(g, i) == View(h, i)
    decreases |h| - i
  {
    assert LinkedAt(h, i);
    match h[i].kind
    case Mapping(entries) =>
      forall k | k in entries ensures View(g, entries[k]) == View(h, entries[k]) {
        assert IsChild(h, i, entries[k]);
        ViewIsLocal(h, g, entries[k]);
      }
    case Sequence(items) =>
      forall j | 0 <= j < |items| ensures View(g, items[j]) == View(h, items[j]) {
        assert IsChild(h, i, items[j]);
        ViewIsLocal(h, g, items[j]);
      }
    case _ =>
  }

  /** Work at node p changes no older node but p itself, and p neither in name nor in place. */
  ghost predicate Kept(s: State, p: nat, r: State) {
    && Sound(r)
    && p < |s.heap| <= |r.heap|
    && r.doc == s.doc && r.docs == s.docs
    && r.heap[p].name == s.heap[p].name && r.heap[p].parent == s.heap[p].parent
    && forall i :: 0 <= i < |s.heap| && i != p ==> r.heap[i] == s.heap[i]
  }

  /** The builder stands at p. */
  ghost predicate At(s: State, p: nat) {
    Sound(s) && s.doc.Some? && s.node == Some(p)
  }

  ghost function ViewMap(h: seq<Node>, p: nat): map<string, Value>
    requires Linked(h) && p < |h| && h[p].kind.Mapping?
  {
    assert LinkedAt(h, p);
    map k | k in h[p].kind.entries :: View(h, h[p].kind.entries[k])
  }

  ghost function ViewSeq(h: seq<Node>, p: nat): seq<Value>
    requires Linked(h) && p < |h| && h[p].kind.Sequence?
  {
    assert LinkedAt(h, p);
    seq(|h[p].kind.items|, j requires 0 <= j < |h[p].kind.items| => View(h, h[p].kind.items[j]))
  }

  lemma KeptTwice(s: State, p: nat, r: State, q: State)
    requires Sound(s) && Kept(s, p, r) && Kept(r, p, q)
    ensures Kept(s, p, q)
  {
  }

  /** A new entry of p: the other entries are still what they were. */
  lemma MapGrows(s: State, p: nat, r: State, key: string, c: nat)
    requires Sound(s) && Kept(s, p, r) && s.heap[p].kind.Mapping? && c < |r.heap|
    requires r.heap[p].kind == Mapping(s.heap[p].kind.entries[key := c])
    ensures ViewMap(r.heap, p) == ViewMap(s.heap, p)[key := View(r.heap, c)]
  {
    var entries := s.heap[p].kind.entries;
    assert LinkedAt(s.heap, p);
    forall k | k in entries && k != key
      ensures IsChild(s.heap, p, entries[k]) && View(r.heap, entries[k]) == View(s.heap, entries[k])
    {
      assert IsChild(s.heap, p, entries[k]);
      ViewIsLocal(s.heap, r.heap, entries[k]);
    }
  }

  /** A new element of p: the others are still what they were. */
  lemma SeqGrows(s: State, p: nat, r: State, c: nat)
    requires Sound(s) && Kept(s, p, r) && s.heap[p].kind.Sequence? && c < |r.heap|
    requires r.heap[p].kind == Sequence(s.heap[p].kind.items + [c])
    ensures ViewSeq(r.heap, p) == ViewSeq(s.heap, p) + [View(r.heap, c)]
  {
    var items := s.heap[p].kind.items;
    assert LinkedAt(s.heap, p);
    forall j | 0 <= j < |items|
      ensures IsChild(s.heap, p, items[j]) && View(r.heap, items[j]) == View(s.heap, items[j])
    {
      assert IsChild(s.heap, p, items[j]);
      ViewIsLocal(s.heap, r.heap, items[j]);
    }
  }

  // ---- values ----

  /** After the events of a value the builder is back at the parent, and the node holds the value. */
  ghost predicate Completed(s: State, p: nat, t: Tree, o: Outcome)
    requires Sound(s) && p < |s.heap|
    requires o.Going? ==> Sound(o.s)
  {
    if Buildable(t) then
      o.Going? && Kept(s, p, o.s) && o.s.node == s.heap[p].parent && View(o.s.heap, p) == Meaning(t, s.heap[p].name)
    else
      o.Crash?
  }

  lemma {:induction false} RunValue(s: State, p: nat, t: Tree)
    requires At(s, p) && s.heap[p].kind.NoNode?
    ensures Completed(s, p, t, Run(Going(s), Events(t)))
    decreases t, 1
  {
    match t
    case Leaf(text) => RunOne(s, ScalarValue(text));
    case Block(entries) => RunBlock(s, p, entries);
    case List(items) => RunList(s, p, items);
  }

  lemma {:induction false} RunBlock(s: State, p: nat, entries: Entries)
    requires At(s, p) && s.heap[p].kind.NoNode?
    ensures Completed(s, p, Block(entries), Run(Going(s), Events(Block(entries))))
    decreases entries, 1
  {
    var inner := SetKind(s, Mapping(map[])).s;
    RunEntries(inner, p, entries);
    Bracketed(s, MappingStart, EntryEvents(entries), MappingEnd);
    assert ViewMap(inner.heap, p) == map[];
    var o := Run(Going(inner), EntryEvents(entries));
    assert o.Going? ==> View(o.s.heap, p) == Dict(o.s.heap[p].name, ViewMap(o.s.heap, p));
  }

  lemma {:induction false} RunList(s: State, p: nat, items: Items)
    requires At(s, p) && s.heap[p].kind.NoNode?
    ensures Completed(s, p, List(items), Run(Going(s), Events(List(items))))
    decreases items, 1
  {
    var inner := SetKind(s, Sequence([])).s;
    RunItems(inner, p, items);
    Bracketed(s, SequenceStart, ItemEvents(items), SequenceEnd);
    assert ViewSeq(inner.heap, p) == [];
    var o := Run(Going(inner), ItemEvents(items));
    assert o.Going? ==> View(o.s.heap, p) == Array(o.s.heap[p].name, ViewSeq(o.s.heap, p));
  }

  lemma Bracketed(s: State, start: Event, es: seq<Event>, end: Event)
    requires Sound(s)
    ensures Run(Going(s), [start] + es + [end]) == Run(Run(Handle(s, start), es), [end])
    ensures var o := Run(Handle(s, start), es);
            Run(o, [end]) == if o.Crash? then Crash else Handle(o.s, end)
  {
    RunConcat(Going(s), [start] + es, [end]);
    RunConcat(Going(s), [start], es);
    RunOne(s, start);
    var o := Run(Handle(s, start), es);
    if o.Going? {
      RunOne(o.s, end);
    }
  }

  // ---- mappings ----

  ghost predicate EntriesDone(s: State, p: nat, es: Entries, o: Outcome)
    requires At(s, p) && s.heap[p].kind.Mapping?
    requires o.Going? ==> Sound(o.s)
  {
    if BuildableEntries(es) then
      && o.Going? && Kept(s, p, o.s) && At(o.s, p) && o.s.heap[p].kind.Mapping?
      && ViewMap(o.s.heap, p) == MeaningOfEntries(es, ViewMap(s.heap, p))
    else
      o.Crash?
  }

  lemma {:induction false} RunEntries(s: State, p: nat, es: Entries)
    requires At(s, p) && s.heap[p].kind.Mapping?
    ensures EntriesDone(s, p, es, Run(Going(s), EntryEvents(es)))
    decreases es, 0
  {
    match es
    case NoEntries =>
    case Entry(key, value, rest) =>
      RunConcat(Going(s), Events(key) + Events(value), EntryEvents(rest));
      RunConcat(Going(s), Events(key), Events(value));
      if key.Leaf? {
        RunEntry(s, p, key.text, value);
        var o := Run(Handle(s, ScalarValue(key.text)), Events(value));
        RunOne(s, ScalarValue(key.text));
        if o.Going? {
          RunEntries(o.s, p, rest);
          var q := Run(o, EntryEvents(rest));
          if q.Going? {
            KeptTwice(s, p, o.s, q.s);
          }
        }
      } else {
        KeyCrashes(s, p, key);
      }
  }

  lemma KeyCrashes(s: State, p: nat, key: Tree)
    requires At(s, p) && s.heap[p].kind.Mapping? && !key.Leaf?
    ensures Run(Going(s), Events(key)) == Crash
  {
    assert Handle(s, Events(key)[0]) == Crash;
  }

  lemma {:induction false} RunEntry(s: State, p: nat, key: string, value: Tree)
    requires At(s, p) && s.heap[p].kind.Mapping?
    ensures var o := Run(Handle(s, ScalarValue(key)), Events(value));
            if Buildable(value) then
              && o.Going? && Kept(s, p, o.s) && At(o.s, p) && o.s.heap[p].kind.Mapping?
              && ViewMap(o.s.heap, p) == ViewMap(s.heap, p)[key := Meaning(value, Some(key))]
            else o.Crash?
    decreases value, 2
  {
    var s1 := CreateNode(s, Some(key)).s;
    var c := |s.heap|;
    RunValue(s1, c, value);
    var o := Run(Going(s1), Events(value));
    if o.Going? {
      MapGrows(s, p, o.s, key, c);
    }
  }

  // ---- sequences ----

  ghost predicate ItemsDone(s: State, p: nat, items: Items, o: Outcome)
    requires At(s, p) && s.heap[p].kind.Sequence?
    requires o.Going? ==> Sound(o.s)
  {
    if BuildableItems(items) then
      && o.Going? && Kept(s, p, o.s) && At(o.s, p) && o.s.heap[p].kind.Sequence?
      && ViewSeq(o.s.heap, p) == ViewSeq(s.heap, p) + MeaningOfItems(items)
    else
      o.Crash?
  }

  lemma {:induction false} RunItems(s: State, p: nat, items: Items)
    requires At(s, p) && s.heap[p].kind.Sequence?
    ensures ItemsDone(s, p, items, Run(Going(s), ItemEvents(items)))
    decreases items, 0
  {
    match items
    case NoItems =>
      assert ViewSeq(s.heap, p) + [] == ViewSeq(s.heap, p);
    case Item(value, more) =>
      RunConcat(Going(s), Events(value), ItemEvents(more));
      RunItem(s, p, value);
      var o := Run(Going(s), Events(value));
      if o.Going? {
        RunItems(o.s, p, more);
        var q := Run(o, ItemEvents(more));
        if q.Going? {
          KeptTwice(s, p, o.s, q.s);
          var m := Meaning(value, if value.Leaf? then Some(value.text) else None);
          AppendTwice(ViewSeq(s.heap, p), [m], MeaningOfItems(more));
        }
      }
  }

  lemma AppendTwice<T>(x: seq<T>, y: seq<T>, z: seq<T>)
    ensures x + y + z == x + (y + z)
  {
  }

  lemma {:induction false} RunItem(s: State, p: nat, value: Tree)
    requires At(s, p) && s.heap[p].kind.Sequence?
    ensures var o := Run(Going(s), Events(value));
            if !value.List? && Buildable(value) then
              && o.Going? && Kept(s, p, o.s) && At(o.s, p) && o.s.heap[p].kind.Sequence?
              && ViewSeq(o.s.heap, p)
                 == ViewSeq(s.heap, p) + [Meaning(value, if value.Leaf? then Some(value.text) else None)]
            else o.Crash?
    decreases value, 2
  {
    var name := if value.Leaf? then Some(value.text) else None;
    var s1 := CreateNode(s, name).s;
    var c := |s.heap|;
    if value.List? {
      assert Handle(s, Events(value)[0]) == Crash;
    } else {
      assert Handle(s, Events(value)[0]) == Handle(s1, Events(value)[0]);
      RunValue(s1, c, value);
      var o := Run(Going(s1), Events(value));
      if o.Going? {
        SeqGrows(s, p, o.s, c);
      }
    }
  }

  // ---- documents ----

  function DocumentEvents(t: Tree): seq<Event> {
    [DocumentStart] + Events(t) + [DocumentEnd]
  }

  /** The events of a file of documents, inside the stream. */
  function StreamEvents(ts: seq<Tree>): seq<Event> {
    if ts == [] then [] else DocumentEvents(ts[0]) + StreamEvents(ts[1..])
  }

  /** Between documents: doc and node are NULL. */
  ghost predicate Between(s: State) {
    Sound(s) && s.doc.None? && s.node.None?
  }

  /** One more document, whose root is a new node without parent; nothing older has changed. */
  ghost predicate DocumentAdded(s: State, t: Tree, o: Outcome)
    requires Sound(s)
    requires o.Going? ==> Sound(o.s)
  {
    if Buildable(t) then
      && o.Going? && Between(o.s) && s.heap <= o.s.heap && |s.heap| < |o.s.heap|
      && o.s.docs == s.docs + [|s.heap|]
      && o.s.heap[|s.heap|].parent.None?
      && View(o.s.heap, |s.heap|) == Meaning(t, None)
    else
      o.Crash?
  }

  lemma RunDocument(s: State, t: Tree)
    requires Between(s)
    ensures DocumentAdded(s, t, Run(Going(s), DocumentEvents(t)))
  {
    var root := Handle(s, DocumentStart).s;
    var p := |s.heap|;
    Bracketed(s, DocumentStart, Events(t), DocumentEnd);
    RunValue(root, p, t);
    var o := Run(Going(root), Events(t));
    if o.Going? {
      assert forall i :: 0 <= i < p ==> o.s.heap[i] == root.heap[i] == s.heap[i];
    }
  }

  ghost predicate LoadedAt(s: State, k: nat, t: Tree)
    requires Sound(s) && k < |s.docs|
  {
    s.docs[k] < |s.heap| && View(s.heap, s.docs[k]) == Meaning(t, None)
  }

  /** Every document of the list, in order, means what its tree means. */
  ghost predicate Loaded(s: State, from: nat, ts: seq<Tree>)
    requires Sound(s)
  {
    |s.docs| == from + |ts| && forall j :: 0 <= j < |ts| ==> LoadedAt(s, from + j, ts[j])
  }

  /** The builder inverts serialisation: for every list of trees, the documents appended are those trees (of
      equal keys the last wins) exactly when every tree is buildable; otherwise an assertion fails.  Documents
      loaded before are left alone. */
  lemma {:induction false} RunStream(s: State, ts: seq<Tree>)
    requires Between(s)
    ensures var o := Run(Going(s), StreamEvents(ts));
            if forall t :: t in ts ==> Buildable(t) then
              o.Going? && Between(o.s) && s.heap <= o.s.heap && s.docs <= o.s.docs && Loaded(o.s, |s.docs|, ts)
            else o.Crash?
    decreases |ts|
  {
    if ts != [] {
      var t, rest := ts[0], ts[1..];
      RunDocument(s, t);
      RunConcat(Going(s), DocumentEvents(t), StreamEvents(rest));
      assert ts == [t] + rest;
      var o := Run(Going(s), DocumentEvents(t));
      if o.Going? {
        RunStream(o.s, rest);
        var q := Run(o, StreamEvents(rest));
        if q.Going? {
          LoadedFirst(s, o.s, q.s, t, rest);
        }
      }
    }
  }

  lemma LoadedFirst(s: State, r: State, q: State, t: Tree, rest: seq<Tree>)
    requires Between(s) && Between(r) && Between(q)
    requires Buildable(t) && DocumentAdded(s, t, Going(r))
    requires r.heap <= q.heap && r.docs <= q.docs && Loaded(q, |r.docs|, rest)
    ensures s.heap <= q.heap && s.docs <= q.docs && Loaded(q, |s.docs|, [t] + rest)
  {
    var p := |s.heap|;
    ViewIsLocal(r.heap, q.heap, p);
    var n := |s.docs|;
    assert q.docs[n] == r.docs[n];
    forall j | 0 <= j < |rest| ensures LoadedAt(q, n + 1 + j, rest[j]) {
      assert LoadedAt(q, |r.docs| + j, rest[j]);
    }
    forall j | 0 <= j < |[t] + rest| ensures LoadedAt(q, n + j, ([t] + rest)[j]) {
      assert j > 0 ==> LoadedAt(q, n + 1 + (j - 1), rest[j - 1]);
    }
  }

  // ---- the stream as the parser delivers it ----

  /** The events the builder looks at. */
  function Seen(es: seq<Event>): seq<Event> {
    if es == [] then [] else (if es[0] == OtherEvent then [] else [es[0]]) + Seen(es[1..])
  }

  lemma {:induction false} SeenConcat(x: seq<Event>, y: seq<Event>)
    ensures Seen(x + y) == Seen(x) + Seen(y)
    decreases |x|
  {
    if x == [] {
      assert x + y == y;
    } else {
      assert (x + y)[1..] == x[1..] + y;
      SeenConcat(x[1..], y);
    }
  }

  /** Events of other kinds change nothing, wherever they stand. */
  lemma {:induction false} OthersIgnored(o: Outcome, es: seq<Event>)
    requires o.Going? ==> Sound(o.s)
    ensures Run(o, es) == Run(o, Seen(es))
    decreases |es|
  {
    if es != [] && o.Going? {
      var rest := Seen(es[1..]);
      OthersIgnored(Handle(o.s, es[0]), es[1..]);
      if es[0] == OtherEvent {
        assert [] + rest == rest;
      } else {
        assert ([es[0]] + rest)[0] == es[0] && ([es[0]] + rest)[1..] == rest;
      }
    }
  }

  /** One such event more or less. */
  lemma OtherEventIgnored(s: State, es: seq<Event>, fs: seq<Event>)
    requires Sound(s)
    ensures Run(Going(s), es + [OtherEvent] + fs) == Run(Going(s), es + fs)
  {
    RunConcat(Going(s), es + [OtherEvent], fs);
    RunConcat(Going(s), es, [OtherEvent]);
    RunConcat(Going(s), es, fs);
    var o := Run(Going(s), es);
    if o.Going? {
      RunOne(o.s, OtherEvent);
    }
  }

  /** A file of documents with any other events around, between and inside them. */
  lemma RunDelivered(s: State, es: seq<Event>, ts: seq<Tree>)
    requires Between(s) && Seen(es) == StreamEvents(ts)
    ensures var o := Run(Going(s), es);
            if forall t :: t in ts ==> Buildable(t) then
              o.Going? && Between(o.s) && s.heap <= o.s.heap && s.docs <= o.s.docs && Loaded(o.s, |s.docs|, ts)
            else o.Crash?
  {
    OthersIgnored(Going(s), es);
    RunStream(s, ts);
  }

  lemma {:induction false} SeenOfTree(t: Tree)
    ensures Seen(Events(t)) == Events(t)
    decreases t
  {
    match t
    case Leaf(text) =>
      assert Events(t)[1..] == [];
    case Block(entries) =>
      SeenOfEntries(entries);
      SeenBracketed(MappingStart, EntryEvents(entries), MappingEnd);
    case List(items) =>
      SeenOfItems(items);
      SeenBracketed(SequenceStart, ItemEvents(items), SequenceEnd);
  }

  lemma SeenBracketed(start: Event, es: seq<Event>, end: Event)
    requires start != OtherEvent && end != OtherEvent && Seen(es) == es
    ensures Seen([start] + es + [end]) == [start] + es + [end]
  {
    SeenConcat([start] + es, [end]);
    SeenConcat([start], es);
    assert [start][1..] == [] && [end][1..] == [];
  }

  lemma {:induction false} SeenOfEntries(es: Entries)
    ensures Seen(EntryEvents(es)) == EntryEvents(es)
    decreases es
  {
    match es
    case NoEntries =>
    case Entry(key, value, rest) =>
      SeenConcat(Events(key) + Events(value), EntryEvents(rest));
      SeenConcat(Events(key), Events(value));
      SeenOfTree(key);
      SeenOfTree(value);
      SeenOfEntries(rest);
  }

  lemma {:induction false} SeenOfItems(items: Items)
    ensures Seen(ItemEvents(items)) == ItemEvents(items)
    decreases items
  {
    match items
    case NoItems =>
    case Item(value, more) =>
      SeenConcat(Events(value), ItemEvents(more));
      SeenOfTree(value);
      SeenOfItems(more);
  }

  lemma {:induction false} SeenOfStream(ts: seq<Tree>)
    ensures Seen(StreamEvents(ts)) == StreamEvents(ts)
    decreases |ts|
  {
    if ts != [] {
      SeenConcat(DocumentEvents(ts[0]), StreamEvents(ts[1..]));
      SeenOfTree(ts[0]);
      SeenBracketed(DocumentStart, Events(ts[0]), DocumentEnd);
      SeenOfStream(ts[1..]);
    }
  }

  /** The stream of a file: its start, the documents, its end. */
  lemma RunFile(s: State, ts: seq<Tree>)
    requires Between(s)
    ensures var o := Run(Going(s), [OtherEvent] + StreamEvents(ts) + [OtherEvent]);
            if forall t :: t in ts ==> Buildable(t) then
              o.Going? && Between(o.s) && s.heap <= o.s.heap && s.docs <= o.s.docs && Loaded(o.s, |s.docs|, ts)
            else o.Crash?
  {
    var es := [OtherEvent] + StreamEvents(ts) + [OtherEvent];
    SeenConcat([OtherEvent] + StreamEvents(ts), [OtherEvent]);
    SeenConcat([OtherEvent], StreamEvents(ts));
    SeenOfStream(ts);
    assert Seen([OtherEvent]) == [] by { assert [OtherEvent][1..] == []; }
    assert Seen(es) == [] + StreamEvents(ts) + [] == StreamEvents(ts);
    RunDelivered(s, es, ts);
  }

  /** Exactly when an event makes an assertion fail or a NULL pointer be followed. */
  lemma CrashesExactly(s: State, e: Event)
    requires Sound(s)
    ensures var kind := if s.node.Some? then Some(s.heap[s.node.value].kind) else None;
            Handle(s, e) == Crash <==>
              match e
              case DocumentStart => s.doc.Some? || (kind.Some? && kind.value.Mapping?)
              case ScalarValue(_) => kind.None? || kind.value.Scalar?
              case MappingStart => s.doc.None? || kind.None? || kind.value.Scalar? || kind.value.Mapping?
              case SequenceStart => s.doc.None? || kind.None? || kind.value != NoNode
              case MappingEnd => kind.None?
              case SequenceEnd => kind.None?
              case DocumentEnd => false
              case OtherEvent => false
  {
    match e
    case ScalarValue(text) =>
    case MappingStart =>
    case _ =>
  }

  // ---- the last of several equal keys wins ----

  function LastOf(es: Entries, key: string): Option<Tree> {
    match es
    case NoEntries => None
    case Entry(k, value, rest) =>
      var later := LastOf(rest, key);
      if later.Some? then later else if k == Leaf(key) then Some(value) else None
  }

  lemma {:induction false} LastWins(es: Entries, m: map<string, Value>, key: string)
    requires BuildableEntries(es)
    ensures var r := MeaningOfEntries(es, m);
            match LastOf(es, key)
            case Some(value) => key in r && r[key] == Meaning(value, Some(key))
            case None => (key in r <==> key in m) && (key in r ==> r[key] == m[key])
    decreases es
  {
    if es.Entry? {
      LastWins(es.rest, m[es.key.text := Meaning(es.value, Some(es.key.text))], key);
    }
  }
}
