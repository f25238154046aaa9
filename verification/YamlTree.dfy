/**
 The recursive definition of the node behind a tree of YAML nodes, and the proof that the event
 machine computes it: the same node, or the same error.
 */
module YamlTree {
  import opened Wrappers
  import opened Yaml

  /** A document as its author wrote it; the children of a mapping are keys and values in turn. */
  datatype Tree =
    | Leaf(value: string, plain: bool, anchor: nat, tag: Option<Tag>)
    | Reference(id: nat)
    | List(anchor: nat, tagged: bool, children: seq<Tree>)
    | Table(anchor: nat, tagged: bool, children: seq<Tree>)

  function Events(t: Tree): seq<Event>
    decreases t
  {
    match t
    case Leaf(value, plain, anchor, tag) => [Scalar(value, plain, anchor, tag)]
    case Reference(id) => [Alias(id)]
    case List(anchor, tagged, children) => [SequenceStart(anchor, tagged)] + EventsOf(children) + [SequenceEnd]
    case Table(anchor, tagged, children) => [MappingStart(anchor, tagged)] + EventsOf(children) + [MappingEnd]
  }

  function EventsOf(ts: seq<Tree>): seq<Event>
    decreases ts
  {
    if ts == [] then [] else Events(ts[0]) + EventsOf(ts[1..])
  }

  /* ---- The recursive definition ---- */

  /** A value together with the nodes anchored so far. */
  datatype Built<T> = Built(value: T, anchors: Anchors)

  /** The node of a tree inside `depth` collections, as a mapping key or not. */
  function Build(t: Tree, anchors: Anchors, depth: nat, isKey: bool, resolve: Resolver):
    Result<Built<Node>, Error>
    decreases t
  {
    match t
    case Leaf(value, plain, anchor, tag) =>
      var node :- ScalarNode(value, plain, tag, isKey, resolve);
      Ok(Built(node, Anchored(anchors, anchor, node)))
    case Reference(id) =>
      if id in anchors then Ok(Built(anchors[id], anchors)) else Err(UnfinishedAlias)
    case List(anchor, tagged, children) =>
      if tagged then Err(UnsupportedTag)
      else if depth >= MAX_DEPTH then Err(TooDeep)
      else
        var items :- BuildItems(children, anchors, depth + 1, resolve);
        Ok(Built(Seq(items.value), Anchored(items.anchors, anchor, Seq(items.value))))
    case Table(anchor, tagged, children) =>
      if tagged then Err(UnsupportedTag)
      else if depth >= MAX_DEPTH then Err(TooDeep)
      else
        var entries :- BuildEntries(children, anchors, depth + 1, resolve);
        Ok(Built(Map(entries.value), Anchored(entries.anchors, anchor, Map(entries.value))))
  }

  function BuildItems(ts: seq<Tree>, anchors: Anchors, depth: nat, resolve: Resolver):
    Result<Built<seq<Node>>, Error>
    decreases ts
  {
    if ts == [] then Ok(Built([], anchors))
    else
      var first :- Build(ts[0], anchors, depth, false, resolve);
      var rest :- BuildItems(ts[1..], first.anchors, depth, resolve);
      Ok(Built([first.value] + rest.value, rest.anchors))
  }

  function BuildEntries(ts: seq<Tree>, anchors: Anchors, depth: nat, resolve: Resolver):
    Result<Built<seq<(Key, Node)>>, Error>
    decreases ts
  {
    if ts == [] then Ok(Built([], anchors))
    else
      var name :- Build(ts[0], anchors, depth, true, resolve);
      var key :- KeyOf(name.value);
      if |ts| == 1 then Err(Unbalanced)
      else
        var value :- Build(ts[1], name.anchors, depth, false, resolve);
        var rest :- BuildEntries(ts[2..], value.anchors, depth, resolve);
        Ok(Built([(key, value.value)] + rest.value, rest.anchors))
  }

  /* ---- Runs of the machine ---- */

  function Then(r: Result<State, Error>, events: seq<Event>, resolve: Resolver): Result<State, Error> {
    match r case Err(e) => Err(e) case Ok(s) => Run(s, events, resolve)
  }

  lemma {:induction false} RunAppend(s: State, a: seq<Event>, b: seq<Event>, resolve: Resolver)
    ensures Run(s, a + b, resolve) == Then(Run(s, a, resolve), b, resolve)
    decreases |a|
  {
    if a == [] {
      assert a + b == b;
    } else {
      assert (a + b)[1..] == a[1..] + b;
      if Step(s, a[0], resolve).Ok? {
        RunAppend(Step(s, a[0], resolve).value, a[1..], b, resolve);
      }
    }
  }

  lemma RunOne(s: State, event: Event, resolve: Resolver)
    ensures Run(s, [event], resolve) == Step(s, event, resolve)
  {
  }

  /** Opening, what is inside, closing. */
  lemma RunInside(s: State, open: Event, inside: seq<Event>, close: Event, resolve: Resolver)
    ensures Run(s, [open] + inside + [close], resolve) ==
      Then(Then(Step(s, open, resolve), inside, resolve), [close], resolve)
  {
    RunAppend(s, [open] + inside, [close], resolve);
    RunAppend(s, [open], inside, resolve);
    RunOne(s, open, resolve);
  }

  /** What the machine makes of a node that was built at this place. */
  function Deliver(s: State, built: Result<Built<Node>, Error>): Result<State, Error> {
    match built case Err(e) => Err(e) case Ok(b) => Place(s.(anchors := b.anchors), b.value)
  }

  function WithTop(s: State, frame: Frame, anchors: Anchors): State {
    s.(stack := s.stack + [frame], anchors := anchors)
  }

  lemma PlaceOnTop(s: State, frame: Frame, anchors: Anchors, after: Anchors, node: Node)
    ensures Place(WithTop(s, frame, anchors).(anchors := after), node) ==
      match PlaceInFrame(frame, node) case Err(e) => Err(e) case Ok(f) => Ok(WithTop(s, f, after))
  {
    assert (s.stack + [frame])[..|s.stack|] == s.stack;
  }

  lemma CloseTopFrame(s: State, frame: Frame, anchors: Anchors, close: Event, resolve: Resolver)
    requires close == SequenceEnd || close == MappingEnd
    ensures Run(WithTop(s, frame, anchors), [close], resolve) ==
      match frame
      case SeqFrame(anchor, items) => Finish(s.(anchors := anchors), Seq(items), anchor)
      case MapFrame(anchor, entries, None) => Finish(s.(anchors := anchors), Map(entries), anchor)
      case MapFrame(_, _, Some(_)) => Err(Unbalanced)
  {
    RunOne(WithTop(s, frame, anchors), close, resolve);
    assert (s.stack + [frame])[..|s.stack|] == s.stack;
  }

  lemma NothingBefore<T>(r: Result<Built<seq<T>>, Error>)
    ensures r.Ok? ==> [] + r.value.value == r.value.value
  {
  }

  lemma BuiltBehind<T>(before: seq<T>, one: T, r: Result<Built<seq<T>>, Error>)
    ensures r.Ok? ==> before + [one] + r.value.value == before + ([one] + r.value.value)
  {
  }

  /** The machine, run over the events of a tree, builds its node and places it. */
  lemma {:induction false} RunTree(t: Tree, s: State, resolve: Resolver)
    ensures Run(s, Events(t), resolve) ==
      Deliver(s, Build(t, s.anchors, |s.stack|, WaitsForKey(s.stack), resolve))
    decreases t, 0
  {
    match t
    case Leaf(value, plain, anchor, tag) =>
      RunOne(s, Scalar(value, plain, anchor, tag), resolve);
    case Reference(id) =>
      RunOne(s, Alias(id), resolve);
    case List(anchor, tagged, children) =>
      RunInside(s, SequenceStart(anchor, tagged), EventsOf(children), SequenceEnd, resolve);
      if !tagged && |s.stack| < MAX_DEPTH {
        RunItems(children, s, anchor, [], s.anchors, resolve);
        NothingBefore(BuildItems(children, s.anchors, |s.stack| + 1, resolve));
      }
    case Table(anchor, tagged, children) =>
      RunInside(s, MappingStart(anchor, tagged), EventsOf(children), MappingEnd, resolve);
      if !tagged && |s.stack| < MAX_DEPTH {
        RunEntries(children, s, anchor, [], s.anchors, resolve);
        NothingBefore(BuildEntries(children, s.anchors, |s.stack| + 1, resolve));
      }
  }

  lemma {:induction false} RunItems(ts: seq<Tree>, s: State, anchor: nat, before: seq<Node>, anchors: Anchors,
      resolve: Resolver)
    ensures Then(Run(WithTop(s, SeqFrame(anchor, before), anchors), EventsOf(ts), resolve), [SequenceEnd], resolve) ==
      match BuildItems(ts, anchors, |s.stack| + 1, resolve)
      case Err(e) => Err(e)
      case Ok(b) => Finish(s.(anchors := b.anchors), Seq(before + b.value), anchor)
    decreases ts
  {
    var frame := SeqFrame(anchor, before);
    if ts == [] {
      CloseTopFrame(s, frame, anchors, SequenceEnd, resolve);
      assert before + [] == before;
    } else {
      var first := Build(ts[0], anchors, |s.stack| + 1, false, resolve);
      RunChild(ts[0], ts[1..], s, frame, anchors, resolve);
      if first.Ok? {
        RunItems(ts[1..], s, anchor, before + [first.value.value], first.value.anchors, resolve);
        BuiltBehind(before, first.value.value, BuildItems(ts[1..], first.value.anchors, |s.stack| + 1, resolve));
      }
    }
  }

  /** One child inside an open collection, then its siblings. */
  lemma {:induction false} RunChild(t: Tree, ts: seq<Tree>, s: State, frame: Frame, anchors: Anchors, resolve: Resolver)
    ensures Run(WithTop(s, frame, anchors), Events(t) + EventsOf(ts), resolve) ==
      match Build(t, anchors, |s.stack| + 1, frame.MapFrame? && frame.pending.None?, resolve)
      case Err(e) => Err(e)
      case Ok(b) =>
        match PlaceInFrame(frame, b.value)
        case Err(e) => Err(e)
        case Ok(f) => Run(WithTop(s, f, b.anchors), EventsOf(ts), resolve)
    decreases t, 1
  {
    var top := WithTop(s, frame, anchors);
    RunAppend(top, Events(t), EventsOf(ts), resolve);
    RunTree(t, top, resolve);
    match Build(t, anchors, |s.stack| + 1, frame.MapFrame? && frame.pending.None?, resolve)
    case Err(e) =>
    case Ok(b) => PlaceOnTop(s, frame, anchors, b.anchors, b.value);
  }

  lemma {:induction false} RunEntries(ts: seq<Tree>, s: State, anchor: nat, before: seq<(Key, Node)>,
      anchors: Anchors, resolve: Resolver)
    ensures
      Then(Run(WithTop(s, MapFrame(anchor, before, None), anchors), EventsOf(ts), resolve), [MappingEnd], resolve) ==
      match BuildEntries(ts, anchors, |s.stack| + 1, resolve)
      case Err(e) => Err(e)
      case Ok(b) => Finish(s.(anchors := b.anchors), Map(before + b.value), anchor)
    decreases ts
  {
    var frame := MapFrame(anchor, before, None);
    if ts == [] {
      CloseTopFrame(s, frame, anchors, MappingEnd, resolve);
      assert before + [] == before;
    } else {
      var name := Build(ts[0], anchors, |s.stack| + 1, true, resolve);
      RunChild(ts[0], ts[1..], s, frame, anchors, resolve);
      if name.Ok? && KeyOf(name.value.value).Ok? {
        RunValue(ts[1..], s, anchor, before, KeyOf(name.value.value).value, name.value.anchors, resolve);
      }
    }
  }

  /** The value behind a key, then the entries behind it. */
  lemma {:induction false} RunValue(ts: seq<Tree>, s: State, anchor: nat, before: seq<(Key, Node)>, key: Key,
      anchors: Anchors, resolve: Resolver)
    ensures
      Then(Run(WithTop(s, MapFrame(anchor, before, Some(key)), anchors), EventsOf(ts), resolve),
        [MappingEnd], resolve) ==
      if ts == [] then Err(Unbalanced)
      else
        match Build(ts[0], anchors, |s.stack| + 1, false, resolve)
        case Err(e) => Err(e)
        case Ok(value) =>
          match BuildEntries(ts[1..], value.anchors, |s.stack| + 1, resolve)
          case Err(e) => Err(e)
          case Ok(b) => Finish(s.(anchors := b.anchors), Map(before + ([(key, value.value)] + b.value)), anchor)
    decreases ts
  {
    var frame := MapFrame(anchor, before, Some(key));
    if ts == [] {
      CloseTopFrame(s, frame, anchors, MappingEnd, resolve);
    } else {
      var value := Build(ts[0], anchors, |s.stack| + 1, false, resolve);
      RunChild(ts[0], ts[1..], s, frame, anchors, resolve);
      if value.Ok? {
        var entry := (key, value.value.value);
        RunEntries(ts[1..], s, anchor, before + [entry], value.value.anchors, resolve);
        BuiltBehind(before, entry, BuildEntries(ts[1..], value.value.anchors, |s.stack| + 1, resolve));
      }
    }
  }

  /* ---- The main result ---- */

  /** A document with one tree parses to the node of the tree, or fails as the tree does. */
  lemma MachineBuildsTree(t: Tree, resolve: Resolver)
    ensures ParseEvents([DocumentStart] + Events(t) + [Ignored], resolve) ==
      match Build(t, map[], 0, false, resolve) case Err(e) => Err(e) case Ok(b) => Ok(b.value)
  {
    RunInside(START, DocumentStart, Events(t), Ignored, resolve);
    var inner := START.(documents := 1);
    RunTree(t, inner, resolve);
    if Build(t, map[], 0, false, resolve).Ok? {
      RunOne(Run(inner, Events(t), resolve).value, Ignored, resolve);
    }
  }
}
