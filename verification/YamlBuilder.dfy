/** The parser's variables and nodes, changed in place, event by event. */
module YamlBuilder {
  import opened Options
  import opened YamlTrees

  class Builder {
    var heap: seq<Node>
    var doc: Option<nat>
    var node: Option<nat>
    var docs: seq<nat>

    function Value(): State
      reads this
    {
      State(heap, doc, node, docs)
    }

    constructor ()
      ensures Value() == State([], None, None, [])
    {
      heap, doc, node, docs := [], None, None, [];
    }

    /** _create_node, under the current node; ok is false when its assertion fails. */
    method Create(name: Option<string>) returns (ok: bool)
      requires Sound(Value())
      modifies this`heap, this`node
      ensures CreateNode(old(Value()), name) == if ok then Going(Value()) else Crash
    {
      var c := |heap|;
      heap := heap + [Node(NoNode, name, node)];
      if node.Some? {
        var p := node.value;
        match heap[p].kind {
          case Mapping(entries) =>
            if name.None? {
              return false;
            }
            heap := heap[p := heap[p].(kind := Mapping(entries - {name.value}))];
            heap := heap[p := heap[p].(kind := Mapping(heap[p].kind.entries[name.value := c]))];
            assert (entries - {name.value})[name.value := c] == entries[name.value := c];
          case Sequence(items) =>
            heap := heap[p := heap[p].(kind := Sequence(items + [c]))];
          case _ =>
        }
      }
      node := Some(c);
      return true;
    }

    method Set(k: Kind) returns (ok: bool)
      requires Sound(Value()) && Fresh(k)
      modifies this`heap
      ensures SetKind(old(Value()), k) == if ok then Going(Value()) else Crash
    {
      if node.None? || !heap[node.value].kind.NoNode? {
        return false;
      }
      heap := heap[node.value := heap[node.value].(kind := k)];
      return true;
    }

    method Up() returns (ok: bool)
      requires Sound(Value())
      modifies this`node
      ensures Leave(Going(old(Value()))) == if ok then Going(Value()) else Crash
    {
      if node.None? {
        return false;
      }
      node := heap[node.value].parent;
      return true;
    }

    method OnScalar(text: string) returns (ok: bool)
      requires Sound(Value())
      modifies this
      ensures Handle(old(Value()), ScalarValue(text)) == if ok then Going(Value()) else Crash
    {
      if node.None? {
        return false;
      }
      var kind := heap[node.value].kind;
      if kind.Mapping? || kind.Sequence? {
        ok := Create(Some(text));
        if kind.Sequence? {
          ok := Set(Scalar(text));
          ok := Up();
        }
      } else {
        ok := Set(Scalar(text));
        if ok {
          ok := Up();
        }
      }
    }

    /** One turn of the event loop. */
    method On(e: Event) returns (ok: bool)
      requires Sound(Value())
      modifies this
      ensures Handle(old(Value()), e) == if ok then Going(Value()) else Crash
    {
      ok := true;
      match e {
        case DocumentStart =>
          if doc.Some? {
            return false;
          }
          ok := Create(None);
          doc := node;
        case DocumentEnd =>
          if doc.Some? {
            docs := docs + [doc.value];
          }
          doc, node := None, None;
        case ScalarValue(text) =>
          ok := OnScalar(text);
        case MappingStart =>
          if doc.None? || node.None? {
            return false;
          }
          if heap[node.value].kind.Sequence? {
            ok := Create(None);
          }
          ok := Set(Mapping(map[]));
        case SequenceStart =>
          if doc.None? || node.None? {
            return false;
          }
          ok := Set(Sequence([]));
        case MappingEnd =>
          ok := Up();
        case SequenceEnd =>
          ok := Up();
        case OtherEvent =>
      }
    }

    method Load(events: seq<Event>) returns (ok: bool)
      requires Sound(Value())
      modifies this
      ensures Run(Going(old(Value())), events) == if ok then Going(Value()) else Crash
    {
      ghost var start := Going(Value());
      var i := 0;
      ok := true;
      while i < |events|
        invariant 0 <= i <= |events|
        invariant Sound(Value())
        invariant ok && Run(start, events) == Run(Going(Value()), events[i..])
      {
        assert events[i..][1..] == events[i + 1..];
        ok := On(events[i]);
        if !ok {
          return;
        }
        i := i + 1;
      }
    }
  }
}
