/** The event-driven tree builder of dse/clib/util/yaml.c.  Nodes live in an arena, their pointers are indices
    into it; the parser's input is a sequence of events. */
module YamlTrees {
  import opened Options

  datatype Kind =
    | NoNode
    | Scalar(text: string)
    | Mapping(entries: map<string, nat>)
    | Sequence(items: seq<nat>)

  datatype Node = Node(kind: Kind, name: Option<string>, parent: Option<nat>)

  datatype Event =
    | DocumentStart
    | DocumentEnd
    | ScalarValue(text: string)
    | MappingStart
    | MappingEnd
    | SequenceStart
    | SequenceEnd
    | OtherEvent

  /** The nodes, the pointers doc and node, and the roots in the document list. */
  datatype State = State(heap: seq<Node>, doc: Option<nat>, node: Option<nat>, docs: seq<nat>)

  /** Crash: an assertion fails, or a NULL pointer is followed. */
  datatype Outcome = Going(s: State) | Crash

  // ---- the heap ----

  predicate IsChild(h: seq<Node>, i: nat, c: nat) {
    i < c < |h| && h[c].parent == Some(i)
  }

  /** All children of node i come after it, and point back to it. */
  ghost predicate LinkedAt(h: seq<Node>, i: nat)
    requires i < |h|
  {
    match h[i].kind
    case Mapping(entries) => forall k :: k in entries ==> IsChild(h, i, entries[k])
    case Sequence(items) => forall j :: 0 <= j < |items| ==> IsChild(h, i, items[j])
    case _ => true
  }

  ghost predicate Linked(h: seq<Node>) {
    && (forall i :: 0 <= i < |h| ==> LinkedAt(h, i))
    && (forall i :: 0 <= i < |h| && h[i].parent.Some? ==> h[i].parent.value < i)
  }

  /** Links survive while no parent changes. */
  lemma StaysLinked(h: seq<Node>, g: seq<Node>)
    requires Linked(h) && |h| <= |g|
    requires forall i :: 0 <= i < |h| ==> g[i].parent == h[i].parent
    ensures forall i :: 0 <= i < |h| && g[i].kind == h[i].kind ==> LinkedAt(g, i)
  {
    forall i | 0 <= i < |h| && g[i].kind == h[i].kind ensures LinkedAt(g, i) {
      assert LinkedAt(h, i);
    }
  }

  ghost predicate Sound(s: State) {
    && Linked(s.heap)
    && (s.node.Some? ==> s.node.value < |s.heap|)
    && (s.doc.Some? ==> s.doc.value < |s.heap|)
    && (forall d :: d in s.docs ==> d < |s.heap|)
  }

  // ---- the builder ----

  /** A kind as _set_node_scalar, _set_node_mapping or _set_node_sequence gives it. */
  predicate Fresh(k: Kind) {
    k.Scalar? || k == Mapping(map[]) || k == Sequence([])
  }

  /** _create_node; in a mapping the last of several equal keys wins. */
  function CreateNode(s: State, name: Option<string>): (o: Outcome)
    requires Sound(s)
    ensures o.Going? ==> Sound(o.s)
  {
    var c := |s.heap|;
    var node := Node(NoNode, name, s.node);
    StaysLinked(s.heap, s.heap + [node]);
    if s.node.None? then Going(s.(heap := s.heap + [node], node := Some(c)))
    else
      var p := s.node.value;
      match s.heap[p].kind
      case Mapping(entries) =>
        if name.None? then Crash
        else
          var h := s.heap[p := s.heap[p].(kind := Mapping(entries[name.value := c]))] + [node];
          StaysLinked(s.heap, h);
          Going(s.(heap := h, node := Some(c)))
      case Sequence(items) =>
        var h := s.heap[p := s.heap[p].(kind := Sequence(items + [c]))] + [node];
        StaysLinked(s.heap, h);
        Going(s.(heap := h, node := Some(c)))
      case _ => Going(s.(heap := s.heap + [node], node := Some(c)))
  }

  /** _set_node_scalar, _set_node_mapping and _set_node_sequence. */
  function SetKind(s: State, k: Kind): (o: Outcome)
    requires Sound(s) && Fresh(k)
    ensures o.Going? ==> Sound(o.s)
  {
    if s.node.None? then Crash
    else
      var p := s.node.value;
      var h := s.heap[p := s.heap[p].(kind := k)];
      StaysLinked(s.heap, h);
      if !s.heap[p].kind.NoNode? then Crash else Going(s.(heap := h))
  }

  /** node = node->parent */
  function Leave(o: Outcome): (r: Outcome)
    requires o.Going? ==> Sound(o.s)
    ensures r.Going? ==> Sound(r.s)
  {
    if o.Crash? || o.s.node.None? then Crash else Going(o.s.(node := o.s.heap[o.s.node.value].parent))
  }

  function Enter(o: Outcome, k: Kind): (r: Outcome)
    requires o.Going? ==> Sound(o.s)
    requires Fresh(k)
    ensures r.Going? ==> Sound(r.s)
  {
    if o.Crash? then Crash else SetKind(o.s, k)
  }

  /** One turn of the event loop in _parse_file. */
  function Handle(s: State, e: Event): (o: Outcome)
    requires Sound(s)
    ensures o.Going? ==> Sound(o.s)
  {
    match e
    case DocumentStart =>
      if s.doc.Some? then Crash
      else
        var o := CreateNode(s, None);
        if o.Crash? then Crash else Going(o.s.(doc := o.s.node))
    case DocumentEnd =>
      Going(s.(docs := if s.doc.Some? then s.docs + [s.doc.value] else s.docs, doc := None, node := None))
    case ScalarValue(text) =>
      if s.node.None? then Crash
      else
        var kind := s.heap[s.node.value].kind;
        if kind.Mapping? then CreateNode(s, Some(text))
        else if kind.Sequence? then Leave(Enter(CreateNode(s, Some(text)), Scalar(text)))
        else Leave(SetKind(s, Scalar(text)))
    case MappingStart =>
      if s.doc.None? || s.node.None? then Crash
      else if s.heap[s.node.value].kind.Sequence? then Enter(CreateNode(s, None), Mapping(map[]))
      else SetKind(s, Mapping(map[]))
    case SequenceStart =>
      if s.doc.None? || s.node.None? then Crash else SetKind(s, Sequence([]))
    case MappingEnd => Leave(Going(s))
    case SequenceEnd => Leave(Going(s))
    case OtherEvent => Going(s)
  }

  function Run(o: Outcome, es: seq<Event>): (r: Outcome)
    requires o.Going? ==> Sound(o.s)
    ensures r.Going? ==> Sound(r.s)
    decreases |es|
  {
    if es == [] || o.Crash? then o else Run(Handle(o.s, es[0]), es[1..])
  }

  // ---- documents, and what they mean ----

  datatype Tree = Leaf(text: string) | Block(entries: Entries) | List(items: Items)
  datatype Entries = NoEntries | Entry(key: Tree, value: Tree, rest: Entries)
  datatype Items = NoItems | Item(value: Tree, more: Items)

  /** The event stream of a tree. */
  function Events(t: Tree): seq<Event> {
    match t
    case Leaf(text) => [ScalarValue(text)]
    case Block(entries) => [MappingStart] + EntryEvents(entries) + [MappingEnd]
    case List(items) => [SequenceStart] + ItemEvents(items) + [SequenceEnd]
  }

  function EntryEvents(es: Entries): seq<Event> {
    match es
    case NoEntries => []
    case Entry(key, value, rest) => Events(key) + Events(value) + EntryEvents(rest)
  }

  function ItemEvents(items: Items): seq<Event> {
    match items
    case NoItems => []
    case Item(value, more) => Events(value) + ItemEvents(more)
  }

  /** Keys are scalars, and no sequence stands directly inside a sequence. */
  predicate Buildable(t: Tree) {
    match t
    case Leaf(_) => true
    case Block(entries) => BuildableEntries(entries)
    case List(items) => BuildableItems(items)
  }

  predicate BuildableEntries(es: Entries) {
    match es
    case NoEntries => true
    case Entry(key, value, rest) => key.Leaf? && Buildable(value) && BuildableEntries(rest)
  }

  predicate BuildableItems(items: Items) {
    match items
    case NoItems => true
    case Item(value, more) => !value.List? && Buildable(value) && BuildableItems(more)
  }

  /** A built tree: every node with its name, mappings without order. */
  datatype Value =
    | Blank(name: Option<string>)
    | Text(name: Option<string>, text: string)
    | Dict(name: Option<string>, dict: map<string, Value>)
    | Array(name: Option<string>, elems: seq<Value>)

  /** What a tree means for a node of this name. */
  function Meaning(t: Tree, name: Option<string>): Value {
    match t
    case Leaf(text) => Text(name, text)
    case Block(entries) => Dict(name, MeaningOfEntries(entries, map[]))
    case List(items) => Array(name, MeaningOfItems(items))
  }

  /** Later entries overwrite earlier ones. */
  function MeaningOfEntries(es: Entries, m: map<string, Value>): map<string, Value> {
    match es
    case NoEntries => m
    case Entry(key, value, rest) =>
      if key.Leaf? then MeaningOfEntries(rest, m[key.text := Meaning(value, Some(key.text))]) else m
  }

  /** A scalar in a sequence is named after itself; a mapping has no name. */
  function MeaningOfItems(items: Items): seq<Value> {
    match items
    case NoItems => []
    case Item(value, more) =>
      [Meaning(value, if value.Leaf? then Some(value.text) else None)] + MeaningOfItems(more)
  }

  /** The tree at node i of a heap. */
  ghost function View(h: seq<Node>, i: nat): Value
    requires Linked(h) && i < |h|
    decreases |h| - i
  {
    var n := h[i];
    match n.kind
    case NoNode => Blank(n.name)
    case Scalar(text) => Text(n.name, text)
    case Mapping(entries) =>
      assert LinkedAt(h, i);
      Dict(n.name, map k | k in entries :: View(h, entries[k]))
    case Sequence(items) =>
      assert LinkedAt(h, i);
      Array(n.name, seq(|items|, j requires 0 <= j < |items| => View(h, items[j])))
  }
}
