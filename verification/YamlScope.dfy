/**
 What an accepted document looks like: every alias names a node that was finished before it, so no
 node holds itself, and no collection is nested deeper than the limit. And what `get` returns.
 */
module YamlScope {
  import opened Wrappers
  import opened Yaml
  import opened YamlTree

  /** The anchors of finished nodes, once this tree is finished as well. */
  function Finished(t: Tree, seen: set<nat>): set<nat>
    decreases t
  {
    match t
    case Leaf(_, _, anchor, _) => With(seen, anchor)
    case Reference(_) => seen
    case List(anchor, _, children) => With(FinishedAll(children, seen), anchor)
    case Table(anchor, _, children) => With(FinishedAll(children, seen), anchor)
  }

  function FinishedAll(ts: seq<Tree>, seen: set<nat>): set<nat>
    decreases ts
  {
    if ts == [] then seen else FinishedAll(ts[1..], Finished(ts[0], seen))
  }

  function With(seen: set<nat>, anchor: nat): set<nat> {
    if anchor != 0 then seen + {anchor} else seen
  }

  /** Every alias names a node that was finished before it. */
  predicate InScope(t: Tree, seen: set<nat>)
    decreases t
  {
    match t
    case Leaf(_, _, _, _) => true
    case Reference(id) => id in seen
    case List(_, _, children) => InScopeAll(children, seen)
    case Table(_, _, children) => InScopeAll(children, seen)
  }

  predicate InScopeAll(ts: seq<Tree>, seen: set<nat>)
    decreases ts
  {
    ts == [] || (InScope(ts[0], seen) && InScopeAll(ts[1..], Finished(ts[0], seen)))
  }

  /** No collection inside the tree is nested in more than `room` collections, itself counted. */
  predicate Nests(t: Tree, room: int)
    decreases t
  {
    match t
    case Leaf(_, _, _, _) => true
    case Reference(_) => true
    case List(_, _, children) => room > 0 && NestsAll(children, room - 1)
    case Table(_, _, children) => room > 0 && NestsAll(children, room - 1)
  }

  predicate NestsAll(ts: seq<Tree>, room: int)
    decreases ts
  {
    ts == [] || (Nests(ts[0], room) && NestsAll(ts[1..], room))
  }

  /** A success means scope, room and exactly these anchors; the two errors mean the opposite. */
  ghost predicate Judges<T>(r: Result<Built<T>, Error>, inScope: bool, nests: bool, after: set<nat>) {
    match r
    case Ok(b) => inScope && nests && b.anchors.Keys == after
    case Err(e) => (e == UnfinishedAlias ==> !inScope) && (e == TooDeep ==> !nests)
  }

  lemma AnchoredKeys(anchors: Anchors, anchor: nat, node: Node)
    ensures Anchored(anchors, anchor, node).Keys == With(anchors.Keys, anchor)
  {
  }

  /**
   A tree is built only if every alias is in scope and nothing is nested too deep, and it is
   refused for one of these two reasons only if that is not so.
   */
  lemma {:induction false} BuildJudges(t: Tree, anchors: Anchors, depth: nat, isKey: bool, resolve: Resolver)
    ensures Judges(Build(t, anchors, depth, isKey, resolve), InScope(t, anchors.Keys),
                   Nests(t, MAX_DEPTH - depth), Finished(t, anchors.Keys))
    decreases t
  {
    match t
    case Leaf(value, plain, anchor, tag) =>
      var node := ScalarNode(value, plain, tag, isKey, resolve);
      if node.Ok? {
        AnchoredKeys(anchors, anchor, node.value);
      }
    case Reference(id) =>
    case List(anchor, tagged, children) =>
      ItemsJudge(children, anchors, depth + 1, resolve);
      var items := BuildItems(children, anchors, depth + 1, resolve);
      if items.Ok? {
        AnchoredKeys(items.value.anchors, anchor, Seq(items.value.value));
      }
    case Table(anchor, tagged, children) =>
      EntriesJudge(children, anchors, depth + 1, resolve);
      var entries := BuildEntries(children, anchors, depth + 1, resolve);
      if entries.Ok? {
        AnchoredKeys(entries.value.anchors, anchor, Map(entries.value.value));
      }
  }

  lemma {:induction false} ItemsJudge(ts: seq<Tree>, anchors: Anchors, depth: nat, resolve: Resolver)
    ensures Judges(BuildItems(ts, anchors, depth, resolve), InScopeAll(ts, anchors.Keys),
                   NestsAll(ts, MAX_DEPTH - depth), FinishedAll(ts, anchors.Keys))
    decreases ts
  {
    if ts != [] {
      BuildJudges(ts[0], anchors, depth, false, resolve);
      var first := Build(ts[0], anchors, depth, false, resolve);
      if first.Ok? {
        ItemsJudge(ts[1..], first.value.anchors, depth, resolve);
      }
    }
  }

  lemma {:induction false} EntriesJudge(ts: seq<Tree>, anchors: Anchors, depth: nat, resolve: Resolver)
    ensures Judges(BuildEntries(ts, anchors, depth, resolve), InScopeAll(ts, anchors.Keys),
                   NestsAll(ts, MAX_DEPTH - depth), FinishedAll(ts, anchors.Keys))
    decreases ts
  {
    if ts != [] {
      BuildJudges(ts[0], anchors, depth, true, resolve);
      var name := Build(ts[0], anchors, depth, true, resolve);
      if name.Ok? && KeyOf(name.value.value).Ok? && |ts| > 1 {
        BuildJudges(ts[1], name.value.anchors, depth, false, resolve);
        var value := Build(ts[1], name.value.anchors, depth, false, resolve);
        assert ts[1..][1..] == ts[2..] && ts[1..][0] == ts[1];
        if value.Ok? {
          EntriesJudge(ts[2..], value.value.anchors, depth, resolve);
        }
      }
    }
  }

  predicate Mentions(t: Tree, id: nat)
    decreases t
  {
    match t
    case Leaf(_, _, _, _) => false
    case Reference(other) => other == id
    case List(_, _, children) => exists i :: 0 <= i < |children| && Mentions(children[i], id)
    case Table(_, _, children) => exists i :: 0 <= i < |children| && Mentions(children[i], id)
  }

  predicate Defines(t: Tree, id: nat)
    decreases t
  {
    match t
    case Leaf(_, _, anchor, _) => anchor == id
    case Reference(_) => false
    case List(anchor, _, children) => anchor == id || exists i :: 0 <= i < |children| && Defines(children[i], id)
    case Table(anchor, _, children) => anchor == id || exists i :: 0 <= i < |children| && Defines(children[i], id)
  }

  /** An anchor that a tree does not define stays unfinished, and an alias of it is out of scope. */
  lemma {:induction false} NotDefined(t: Tree, seen: set<nat>, id: nat)
    requires id !in seen && !Defines(t, id)
    ensures id !in Finished(t, seen)
    ensures Mentions(t, id) ==> !InScope(t, seen)
    decreases t
  {
    match t
    case Leaf(_, _, _, _) =>
    case Reference(_) =>
    case List(_, _, children) => NoneDefines(children, seen, id);
    case Table(_, _, children) => NoneDefines(children, seen, id);
  }

  lemma {:induction false} NoneDefines(ts: seq<Tree>, seen: set<nat>, id: nat)
    requires id !in seen && forall i :: 0 <= i < |ts| ==> !Defines(ts[i], id)
    ensures id !in FinishedAll(ts, seen)
    ensures (exists i :: 0 <= i < |ts| && Mentions(ts[i], id)) ==> !InScopeAll(ts, seen)
    decreases ts
  {
    if ts != [] {
      NotDefined(ts[0], seen, id);
      NoneDefines(ts[1..], Finished(ts[0], seen), id);
      if i :| 0 <= i < |ts| && Mentions(ts[i], id) {
        assert i > 0 ==> ts[1..][i - 1] == ts[i];
      }
    }
  }

  /** A node that would hold itself is refused: its anchor is not finished inside it. */
  lemma RecursionRefused(anchor: nat, children: seq<Tree>, anchors: Anchors, depth: nat, isKey: bool, resolve: Resolver)
    requires anchor !in anchors && forall i :: 0 <= i < |children| ==> !Defines(children[i], anchor)
    requires exists i :: 0 <= i < |children| && Mentions(children[i], anchor)
    ensures Build(List(anchor, false, children), anchors, depth, isKey, resolve).Err?
    ensures Build(Table(anchor, false, children), anchors, depth, isKey, resolve).Err?
  {
    NoneDefines(children, anchors.Keys, anchor);
    BuildJudges(List(anchor, false, children), anchors, depth, isKey, resolve);
    BuildJudges(Table(anchor, false, children), anchors, depth, isKey, resolve);
  }

  /* ---- Lookups ---- */

  /** The last entry with the key. */
  predicate IsLastWith(entries: seq<(Key, Node)>, key: string, i: int) {
    0 <= i < |entries| && entries[i].0 == Some(key) && forall k :: i < k < |entries| ==> entries[k].0 != Some(key)
  }

  lemma {:induction false} LastEntryIs(entries: seq<(Key, Node)>, key: string)
    ensures match LastEntry(entries, key)
      case None => forall i :: 0 <= i < |entries| ==> entries[i].0 != Some(key)
      case Some(value) => exists i :: IsLastWith(entries, key, i) && entries[i].1 == value
  {
    if entries != [] {
      var last := |entries| - 1;
      if entries[last].0 == Some(key) {
        assert IsLastWith(entries, key, last);
      } else {
        LastEntryIs(entries[..last], key);
        match LastEntry(entries[..last], key)
        case None =>
        case Some(value) =>
          var i :| IsLastWith(entries[..last], key, i) && entries[..last][i].1 == value;
          assert IsLastWith(entries, key, i);
      }
    }
  }

  /** A lookup in a mapping finds the value of the last entry with the key; otherwise it finds nothing. */
  lemma LastEntryWins(node: Node, key: string)
    ensures match Get(node, key)
      case None => !node.Map? || forall i :: 0 <= i < |node.entries| ==> node.entries[i].0 != Some(key)
      case Some(value) =>
        && node.Map?
        && exists i :: IsLastWith(node.entries, key, i) && node.entries[i].1 == value
  {
    if node.Map? {
      LastEntryIs(node.entries, key);
    }
  }
}
