/**
 The YAML event machine: a loop over parser events with a stack of open collections and a map of
 anchored nodes. Its specification is a step function on states; the node it returns is that of a
 recursive definition over the tree behind the events (module YamlTree).
 */
module Yaml {
  import opened Wrappers

  const MAX_DEPTH: nat := 64

  type Key = Option<string>

  datatype Node =
    | Str(value: string)
    | Null
    | Other(name: string)
    | Seq(items: seq<Node>)
    | Map(entries: seq<(Key, Node)>)

  datatype Error =
    | NotYaml
    | SecondDocument
    | UnsupportedTag
    | TooDeep
    | Unbalanced
    | EmptyKey
    | BadScalar
    | UnfinishedAlias
    | CollectionKey

  datatype Tag = StrTag | OtherTag

  /** What the parser reports; anchor 0 is no anchor. */
  datatype Event =
    | DocumentStart
    | SequenceStart(anchor: nat, tagged: bool)
    | MappingStart(anchor: nat, tagged: bool)
    | SequenceEnd
    | MappingEnd
    | Scalar(value: string, plain: bool, anchor: nat, tag: Option<Tag>)
    | Alias(id: nat)
    | Broken
    | Ignored

  /** The implicit type of a plain scalar, decided by regular expressions outside this model. */
  datatype Resolved = AsStr | AsNull | AsOther(name: string) | Refused

  type Resolver = string -> Resolved

  datatype Frame =
    | SeqFrame(anchor: nat, items: seq<Node>)
    | MapFrame(anchor: nat, entries: seq<(Key, Node)>, pending: Option<Key>)

  type Anchors = map<nat, Node>

  datatype State = State(stack: seq<Frame>, anchors: Anchors, documents: nat, root: Option<Node>)

  const START: State := State([], map[], 0, None)

  function ResolvePlain(value: string, resolve: Resolver): Result<Node, Error> {
    match resolve(value)
    case AsStr => Ok(Str(value))
    case AsNull => Ok(Null)
    case AsOther(name) => Ok(Other(name))
    case Refused => Err(BadScalar)
  }

  function ScalarNode(value: string, plain: bool, tag: Option<Tag>, isKey: bool, resolve: Resolver):
    Result<Node, Error>
  {
    if isKey && value == "" && plain && tag.None? then Err(EmptyKey)
    else match tag
      case Some(StrTag) => Ok(Str(value))
      case Some(OtherTag) => Err(UnsupportedTag)
      case None => if plain then ResolvePlain(value, resolve) else Ok(Str(value))
  }

  function Anchored(anchors: Anchors, anchor: nat, node: Node): Anchors {
    if anchor != 0 then anchors[anchor := node] else anchors
  }

  function KeyOf(node: Node): Result<Key, Error> {
    match node
    case Str(key) => Ok(Some(key))
    case Null | Other(_) => Ok(None)
    case Seq(_) | Map(_) => Err(CollectionKey)
  }

  /** The innermost open mapping waits for a key. */
  predicate WaitsForKey(stack: seq<Frame>) {
    stack != [] && stack[|stack| - 1].MapFrame? && stack[|stack| - 1].pending.None?
  }

  function PlaceInFrame(frame: Frame, node: Node): Result<Frame, Error> {
    match frame
    case SeqFrame(anchor, items) => Ok(SeqFrame(anchor, items + [node]))
    case MapFrame(anchor, entries, Some(key)) => Ok(MapFrame(anchor, entries + [(key, node)], None))
    case MapFrame(anchor, entries, None) =>
      var key :- KeyOf(node);
      Ok(MapFrame(anchor, entries, Some(key)))
  }

  /** A finished node goes into the innermost open collection, or is the root. */
  function Place(s: State, node: Node): Result<State, Error> {
    if s.stack == [] then Ok(s.(root := Some(node)))
    else
      var last := |s.stack| - 1;
      var frame :- PlaceInFrame(s.stack[last], node);
      Ok(s.(stack := s.stack[..last] + [frame]))
  }

  function Finish(s: State, node: Node, anchor: nat): Result<State, Error> {
    Place(s.(anchors := Anchored(s.anchors, anchor, node)), node)
  }

  function Open(s: State, tagged: bool, frame: Frame): Result<State, Error> {
    if tagged then Err(UnsupportedTag)
    else if |s.stack| >= MAX_DEPTH then Err(TooDeep)
    else Ok(s.(stack := s.stack + [frame]))
  }

  function Close(s: State): Result<State, Error> {
    if s.stack == [] then Err(Unbalanced)
    else
      var last := |s.stack| - 1;
      var outer := s.(stack := s.stack[..last]);
      match s.stack[last]
      case SeqFrame(anchor, items) => Finish(outer, Seq(items), anchor)
      case MapFrame(anchor, entries, None) => Finish(outer, Map(entries), anchor)
      case MapFrame(_, _, Some(_)) => Err(Unbalanced)
  }

  function Step(s: State, event: Event, resolve: Resolver): Result<State, Error> {
    match event
    case Broken => Err(NotYaml)
    case Ignored => Ok(s)
    case DocumentStart =>
      if s.documents + 1 > 1 then Err(SecondDocument) else Ok(s.(documents := s.documents + 1))
    case SequenceStart(anchor, tagged) => Open(s, tagged, SeqFrame(anchor, []))
    case MappingStart(anchor, tagged) => Open(s, tagged, MapFrame(anchor, [], None))
    case SequenceEnd => Close(s)
    case MappingEnd => Close(s)
    case Scalar(value, plain, anchor, tag) =>
      var node :- ScalarNode(value, plain, tag, WaitsForKey(s.stack), resolve);
      Finish(s, node, anchor)
    case Alias(id) =>
      if id in s.anchors then Finish(s, s.anchors[id], 0) else Err(UnfinishedAlias)
  }

  function Run(s: State, events: seq<Event>, resolve: Resolver): Result<State, Error>
    decreases |events|
  {
    if events == [] then Ok(s)
    else
      var next :- Step(s, events[0], resolve);
      Run(next, events[1..], resolve)
  }

  function ParseEvents(events: seq<Event>, resolve: Resolver): Result<Node, Error> {
    var s :- Run(START, events, resolve);
    Ok(match s.root case Some(node) => node case None => Null)
  }

  /* ---- Mappings ---- */

  /** The value of the last entry with this key. */
  function LastEntry(entries: seq<(Key, Node)>, key: string): Option<Node> {
    if entries == [] then None
    else
      var last := |entries| - 1;
      if entries[last].0 == Some(key) then Some(entries[last].1) else LastEntry(entries[..last], key)
  }

  function Get(node: Node, key: string): Option<Node> {
    if node.Map? then LastEntry(node.entries, key) else None
  }

  /* ---- The machine as it runs ---- */

  /** The node's anchor is recorded, then the node goes where it belongs. */
  method FinishNode(s: State, node: Node, anchor: nat) returns (r: Result<State, Error>)
    ensures r == Finish(s, node, anchor)
  {
    var anchors := s.anchors;
    if anchor != 0 {
      anchors := anchors[anchor := node];
    }
    if s.stack == [] {
      return Ok(State([], anchors, s.documents, Some(node)));
    }
    var outer, top := s.stack[..|s.stack| - 1], s.stack[|s.stack| - 1];
    match top {
      case SeqFrame(a, items) =>
        top := SeqFrame(a, items + [node]);
      case MapFrame(a, entries, pending) =>
        match pending {
          case Some(key) =>
            top := MapFrame(a, entries + [(key, node)], None);
          case None =>
            if node.Seq? || node.Map? {
              return Err(CollectionKey);
            }
            top := MapFrame(a, entries, Some(if node.Str? then Some(node.value) else None));
        }
    }
    return Ok(State(outer + [top], anchors, s.documents, s.root));
  }

  method CloseTop(s: State) returns (r: Result<State, Error>)
    ensures r == Close(s)
  {
    if s.stack == [] {
      return Err(Unbalanced);
    }
    var outer, top := s.(stack := s.stack[..|s.stack| - 1]), s.stack[|s.stack| - 1];
    match top
    case SeqFrame(anchor, items) =>
      r := FinishNode(outer, Seq(items), anchor);
    case MapFrame(anchor, entries, pending) =>
      if pending.Some? {
        return Err(Unbalanced);
      }
      r := FinishNode(outer, Map(entries), anchor);
  }

  method HandleScalar(s: State, value: string, plain: bool, anchor: nat, tag: Option<Tag>, resolve: Resolver)
    returns (r: Result<State, Error>)
    ensures r == Step(s, Scalar(value, plain, anchor, tag), resolve)
  {
    var isKey := |s.stack| > 0 && s.stack[|s.stack| - 1].MapFrame? && s.stack[|s.stack| - 1].pending.None?;
    if isKey && value == "" && plain && tag.None? {
      return Err(EmptyKey);
    }
    var node;
    match tag {
      case Some(t) =>
        if t != StrTag {
          return Err(UnsupportedTag);
        }
        node := Str(value);
      case None =>
        if plain {
          var resolved := ResolvePlain(value, resolve);
          if resolved.Err? {
            return Err(resolved.error);
          }
          node := resolved.value;
        } else {
          node := Str(value);
        }
    }
    r := FinishNode(s, node, anchor);
  }

  /** One event; a result means that the loop goes on. */
  method Handle(s: State, event: Event, resolve: Resolver) returns (r: Result<State, Error>)
    ensures r == Step(s, event, resolve)
  {
    match event
    case Broken => return Err(NotYaml);
    case Ignored => return Ok(s);
    case DocumentStart =>
      var documents := s.documents + 1;
      return if documents > 1 then Err(SecondDocument) else Ok(s.(documents := documents));
    case SequenceStart(anchor, tagged) =>
      if tagged {
        return Err(UnsupportedTag);
      }
      if |s.stack| >= MAX_DEPTH {
        return Err(TooDeep);
      }
      return Ok(s.(stack := s.stack + [SeqFrame(anchor, [])]));
    case MappingStart(anchor, tagged) =>
      if tagged {
        return Err(UnsupportedTag);
      }
      if |s.stack| >= MAX_DEPTH {
        return Err(TooDeep);
      }
      return Ok(s.(stack := s.stack + [MapFrame(anchor, [], None)]));
    case SequenceEnd => r := CloseTop(s);
    case MappingEnd => r := CloseTop(s);
    case Scalar(value, plain, anchor, tag) =>
      r := HandleScalar(s, value, plain, anchor, tag, resolve);
    case Alias(id) =>
      if id !in s.anchors {
        return Err(UnfinishedAlias);
      }
      r := FinishNode(s, s.anchors[id], 0);
  }

  /** No step opens more than the limit. */
  lemma StepDepth(s: State, event: Event, resolve: Resolver)
    requires |s.stack| <= MAX_DEPTH
    ensures var r := Step(s, event, resolve); r.Ok? ==> |r.value.stack| <= MAX_DEPTH
  {
  }

  /** Never more than 64 open collections, whatever the events are. */
  lemma {:induction false} RunDepth(s: State, events: seq<Event>, resolve: Resolver)
    requires |s.stack| <= MAX_DEPTH
    ensures var r := Run(s, events, resolve); r.Ok? ==> |r.value.stack| <= MAX_DEPTH
    decreases |events|
  {
    if events != [] && Step(s, events[0], resolve).Ok? {
      StepDepth(s, events[0], resolve);
      RunDepth(Step(s, events[0], resolve).value, events[1..], resolve);
    }
  }

  method Parse(events: seq<Event>, resolve: Resolver) returns (r: Result<Node, Error>)
    ensures r == ParseEvents(events, resolve)
  {
    var s, i := START, 0;
    assert events[0..] == events;
    while i < |events|
      invariant i <= |events| && |s.stack| <= MAX_DEPTH
      invariant Run(START, events, resolve) == Run(s, events[i..], resolve)
    {
      StepDepth(s, events[i], resolve);
      assert events[i..][1..] == events[i + 1..];
      var next := Handle(s, events[i], resolve);
      if next.Err? {
        return Err(next.error);
      }
      s, i := next.value, i + 1;
    }
    return Ok(match s.root case Some(node) => node case None => Null);
  }
}
