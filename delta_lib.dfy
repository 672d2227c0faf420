/**
 * The delta path-routing trie (packages/delta/src/lib.ts).
 *
 * The JavaScript nodes are objects that point at each other through `Map`s, and a mounted
 * router's nodes are spliced into the mounting router by reference. The model keeps every
 * node in one arena (`TrieHeap.nodes`, a map from node ids to node records) so that a
 * spliced node is one id reachable from two parents, exactly as in the source. A node's
 * `children` is an association list in insertion order, the iteration order of a `Map`.
 */
module DeltaLib {
  import opened Wrappers
  import DeltaUtils

  /** The key every parameter child is stored under. */
  const ParamPieceKey: string := "*"

  const RouterExistsMessage: string := "Router already exists for this route!"
  const HandlerExistsMessage: string := "Handler already exists for this route!"

  /** The methods a route may be registered with. */
  datatype HttpMethod = GET | POST | PUT | DELETE | PATCH | HEAD | OPTIONS | CONNECT | TRACE | ALL

  /** The string a method compares equal to. */
  function MethodName(m: HttpMethod): string
  {
    match m
    case GET => "GET"
    case POST => "POST"
    case PUT => "PUT"
    case DELETE => "DELETE"
    case PATCH => "PATCH"
    case HEAD => "HEAD"
    case OPTIONS => "OPTIONS"
    case CONNECT => "CONNECT"
    case TRACE => "TRACE"
    case ALL => "ALL"
  }

  type NodeId = nat

  /** The identity of a handler function; the router only stores and returns it. */
  type HandlerRef = nat

  /** A router is known by its root node. */
  datatype Router = Router(root: NodeId)

  /** What a route resolves to: a handler, or a nested router to mount. */
  datatype Resolver = Handler(fn: HandlerRef) | Nested(router: Router)

  /** One piece of a registered path, as the router receives it. */
  datatype PathPiece = PathPiece(value: string, isParam: bool)

  /** A route registration `{path, method, resolver}`, with the path already cut into pieces. */
  datatype RouteSetup = RouteSetup(pieces: seq<PathPiece>, httpMethod: HttpMethod, resolver: Resolver)

  /** A `DeltaTrieNode`: its children in insertion order, and the three writable fields. */
  datatype TrieNode = TrieNode(
    children: seq<(string, NodeId)>,
    piece: Option<string>,
    httpMethod: Option<HttpMethod>,
    handler: Option<Resolver>)

  const EmptyNode: TrieNode := TrieNode([], None, None, None)

  /** The result of `getRoute`: parameters keyed by the entered node's `piece` (which may be null). */
  datatype Route = Route(params: map<Option<string>, string>, handler: Resolver)

  /** All nodes, and the next fresh id. */
  datatype Arena = Arena(nodes: map<NodeId, TrieNode>, next: NodeId)

  /** What a registration leaves behind: the arena, and whether it threw (and with what message). */
  datatype Outcome = Done(arena: Arena) | Threw(arena: Arena, message: string)

  /** `children.get(key)`: the child stored under `key`, or None. */
  function Find(children: seq<(string, NodeId)>, key: string): (r: Option<NodeId>)
    ensures r.None? <==> forall i :: 0 <= i < |children| ==> children[i].0 != key
    ensures r.Some? ==> exists i :: 0 <= i < |children| && children[i] == (key, r.value)
  {
    if children == [] then None
    else if children[0].0 == key then Some(children[0].1)
    else Find(children[1..], key)
  }

  /** Appending an entry under a new key leaves every other lookup as it was. */
  lemma {:induction false} FindAppend(children: seq<(string, NodeId)>, entry: (string, NodeId), key: string)
    requires Find(children, entry.0).None?
    ensures Find(children + [entry], key) == if key == entry.0 then Some(entry.1) else Find(children, key)
  {
    if children == [] {
    } else {
      assert (children + [entry])[1..] == children[1..] + [entry];
      if children[0].0 != key {
        FindAppend(children[1..], entry, key);
      }
    }
  }

  /** No key occurs twice among a node's children. */
  ghost predicate UniqueKeys(children: seq<(string, NodeId)>)
  {
    forall i, j :: 0 <= i < j < |children| ==> children[i].0 != children[j].0
  }

  /** The arena's invariant: ids below `next`, children present, keys unique. */
  ghost predicate Closed(a: Arena)
  {
    && (forall id :: id in a.nodes ==> id < a.next)
    && ChildrenIn(a.nodes)
    && (forall id :: id in a.nodes ==> UniqueKeys(a.nodes[id].children))
  }

  /** Every child id names a node. */
  ghost predicate ChildrenIn(nodes: map<NodeId, TrieNode>)
  {
    forall id, i :: id in nodes && 0 <= i < |nodes[id].children| ==> nodes[id].children[i].1 in nodes
  }

  /** Every nested router of the registrations lives in the arena. */
  ghost predicate ResolversIn(items: seq<RouteSetup>, a: Arena)
  {
    NestedRoots(items) <= a.nodes.Keys
  }

  /** The roots of the routers the registrations mount. */
  function NestedRoots(items: seq<RouteSetup>): set<NodeId>
  {
    if items == [] then {}
    else (if items[0].resolver.Nested? then {items[0].resolver.router.root} else {}) + NestedRoots(items[1..])
  }

  /** `b` grew from `a`: nodes kept, children only appended to, handlers and methods once set kept. */
  ghost predicate Extends(a: Arena, b: Arena)
  {
    && a.next <= b.next
    && a.nodes.Keys <= b.nodes.Keys
    && (forall id :: id in a.nodes ==> a.nodes[id].children <= b.nodes[id].children)
    && (forall id :: id in a.nodes && a.nodes[id].handler.Some? ==>
          b.nodes[id].handler == a.nodes[id].handler && b.nodes[id].httpMethod == a.nodes[id].httpMethod)
  }

  lemma ExtendsTransitive(a: Arena, b: Arena, c: Arena)
    requires Extends(a, b) && Extends(b, c)
    ensures Extends(a, c)
  {
  }

  /** A key found in a child list is found, with the same child, in every longer list it begins. */
  lemma {:induction false} FindPrefix(front: seq<(string, NodeId)>, children: seq<(string, NodeId)>, key: string)
    requires front <= children && Find(front, key).Some?
    ensures Find(children, key) == Find(front, key)
  {
    assert children[0] == front[0];
    if front[0].0 != key {
      assert front[1..] <= children[1..];
      FindPrefix(front[1..], children[1..], key);
    }
  }

  /** The key a registered piece is stored under (line 25). */
  function PieceKey(p: PathPiece): string
  {
    if p.isParam then ParamPieceKey else p.value
  }

  function Keys(pieces: seq<PathPiece>): (keys: seq<string>)
    ensures |keys| == |pieces|
    ensures forall i :: 0 <= i < |pieces| ==> keys[i] == PieceKey(pieces[i])
  {
    seq(|pieces|, i requires 0 <= i < |pieces| => PieceKey(pieces[i]))
  }

  /** `value.slice(1)`: the string without its first character ("" stays ""). */
  function Slice1(s: string): string
  {
    if s == [] then [] else s[1..]
  }

  /** The name written into `piece` for a registered piece (line 31). */
  function PieceName(p: PathPiece): string
  {
    if p.isParam then Slice1(p.value) else p.value
  }

  /** Appends `(key, child)` to the children of `id`. */
  function AddChild(a: Arena, id: NodeId, key: string, child: NodeId): Arena
    requires id in a.nodes
  {
    a.(nodes := a.nodes[id := a.nodes[id].(children := a.nodes[id].children + [(key, child)])])
  }

  /** Adding a child under a key the node lacks, pointing into the arena, keeps it closed and extends it. */
  lemma AddChildKeeps(a: Arena, id: NodeId, key: string, child: NodeId)
    requires Closed(a) && id in a.nodes && child in a.nodes
    requires Find(a.nodes[id].children, key).None?
    ensures Closed(AddChild(a, id, key, child)) && Extends(a, AddChild(a, id, key, child))
    ensures Find(AddChild(a, id, key, child).nodes[id].children, key) == Some(child)
  {
    FindAppend(a.nodes[id].children, (key, child), key);
  }

  /** Lines 27-29: a child under `key`, created fresh (and appended) when missing. */
  function GrowChild(a: Arena, cur: NodeId, key: string): (r: Arena)
    requires Closed(a) && cur in a.nodes
    ensures Closed(r) && Extends(a, r) && cur in r.nodes
    ensures Find(r.nodes[cur].children, key).Some?
  {
    if Find(a.nodes[cur].children, key).None? then
      var grown := a.(nodes := a.nodes[a.next := EmptyNode], next := a.next + 1);
      NewNodeKeeps(a);
      AddChildKeeps(grown, cur, key, a.next);
      ExtendsTransitive(a, grown, AddChild(grown, cur, key, a.next));
      AddChild(grown, cur, key, a.next)
    else a
  }

  /** Line 31: overwrite the `piece` field of one node. */
  function SetPiece(a: Arena, cur: NodeId, name: string): (r: Arena)
    requires Closed(a) && cur in a.nodes
    ensures Closed(r) && Extends(a, r) && cur in r.nodes
    ensures r.nodes[cur].children == a.nodes[cur].children
  {
    SetPieceKeeps(a, cur, name);
    a.(nodes := a.nodes[cur := a.nodes[cur].(piece := Some(name))])
  }

  /**
   * One step of the registration walk (lines 25-32): create the child if the key is new,
   * write the piece name onto the node being LEFT, then move to the child.
   */
  function InsertStep(a: Arena, cur: NodeId, p: PathPiece): (r: (Arena, NodeId))
    requires Closed(a) && cur in a.nodes
    ensures Closed(r.0) && Extends(a, r.0) && r.1 in r.0.nodes
    ensures Find(r.0.nodes[cur].children, PieceKey(p)) == Some(r.1)
  {
    var key := PieceKey(p);
    var a2 := SetPiece(GrowChild(a, cur, key), cur, PieceName(p));
    var child := Find(a2.nodes[cur].children, key).value;
    ExtendsTransitive(a, GrowChild(a, cur, key), a2);
    (a2, child)
  }

  /** Allocating a fresh childless node keeps the arena closed. */
  lemma NewNodeKeeps(a: Arena)
    requires Closed(a)
    ensures Closed(a.(nodes := a.nodes[a.next := EmptyNode], next := a.next + 1))
    ensures Extends(a, a.(nodes := a.nodes[a.next := EmptyNode], next := a.next + 1))
  {
  }

  /** Writing a node's `piece` changes no edge, handler or method. */
  lemma SetPieceKeeps(a: Arena, cur: NodeId, name: string)
    requires Closed(a) && cur in a.nodes
    ensures Closed(a.(nodes := a.nodes[cur := a.nodes[cur].(piece := Some(name))]))
    ensures Extends(a, a.(nodes := a.nodes[cur := a.nodes[cur].(piece := Some(name))]))
  {
  }

  /** The registration walk over all pieces (lines 24-33); returns the target node. */
  function WalkInsert(a: Arena, cur: NodeId, pieces: seq<PathPiece>): (r: (Arena, NodeId))
    requires Closed(a) && cur in a.nodes
    ensures Closed(r.0) && Extends(a, r.0) && r.1 in r.0.nodes
    decreases |pieces|
  {
    if pieces == [] then (a, cur)
    else
      var (a2, child) := InsertStep(a, cur, pieces[0]);
      var r := WalkInsert(a2, child, pieces[1..]);
      ExtendsTransitive(a, a2, r.0);
      r
  }

  /** Mounting (lines 35-44): copy the nested root's entries in order, throwing at the first clash. */
  function Mount(a: Arena, target: NodeId, entries: seq<(string, NodeId)>): (r: Outcome)
    requires Closed(a) && target in a.nodes
    requires forall i :: 0 <= i < |entries| ==> entries[i].1 in a.nodes
    ensures Closed(r.arena) && Extends(a, r.arena) && target in r.arena.nodes
    ensures r.Threw? ==> r.message == RouterExistsMessage
    decreases |entries|
  {
    if entries == [] then Done(a)
    else if Find(a.nodes[target].children, entries[0].0).Some? then Threw(a, RouterExistsMessage)
    else
      var b := AddChild(a, target, entries[0].0, entries[0].1);
      AddChildKeeps(a, target, entries[0].0, entries[0].1);
      var r := Mount(b, target, entries[1..]);
      ExtendsTransitive(a, b, r.arena);
      r
  }

  /** Sets method and handler on the target, unless it already has a handler (lines 46-51). */
  function Finish(a: Arena, target: NodeId, item: RouteSetup): (r: Outcome)
    requires Closed(a) && target in a.nodes
    ensures Closed(r.arena) && Extends(a, r.arena)
  {
    if a.nodes[target].handler.Some? then Threw(a, HandlerExistsMessage)
    else Done(a.(nodes := a.nodes[target := a.nodes[target].(httpMethod := Some(item.httpMethod), handler := Some(item.resolver))]))
  }

  /** One registration of the constructor's loop (lines 20-51). */
  function InsertItem(a: Arena, root: NodeId, item: RouteSetup): (r: Outcome)
    requires Closed(a) && root in a.nodes
    requires item.resolver.Nested? ==> item.resolver.router.root in a.nodes
    ensures Closed(r.arena) && Extends(a, r.arena)
  {
    var (a1, target) := WalkInsert(a, root, item.pieces);
    var mounted :=
      if item.resolver.Nested? then Mount(a1, target, a1.nodes[item.resolver.router.root].children)
      else Done(a1);
    if mounted.Threw? then mounted
    else
      var r := Finish(mounted.arena, target, item);
      ExtendsTransitive(a, a1, mounted.arena);
      ExtendsTransitive(a, mounted.arena, r.arena);
      r
  }

  /** All registrations in order; the first that throws ends the construction. */
  function InsertAll(a: Arena, root: NodeId, items: seq<RouteSetup>): (r: Outcome)
    requires Closed(a) && root in a.nodes && ResolversIn(items, a)
    ensures Closed(r.arena) && Extends(a, r.arena)
    decreases |items|
  {
    if items == [] then Done(a)
    else
      var first := InsertItem(a, root, items[0]);
      if first.Threw? then first
      else
        var r := InsertAll(first.arena, root, items[1..]);
        ExtendsTransitive(a, first.arena, r.arena);
        r
  }

  /** `new DeltaRouter(items)`: a fresh root, then every registration. */
  function Construct(a: Arena, items: seq<RouteSetup>): (r: Outcome)
    requires Closed(a) && ResolversIn(items, a)
    ensures Closed(r.arena) && Extends(a, r.arena) && a.next in r.arena.nodes
  {
    var b := WithRoot(a);
    var r := InsertAll(b, a.next, items);
    ExtendsTransitive(a, b, r.arena);
    r
  }

  /** The arena with one more, childless, node: the new router's root. */
  function WithRoot(a: Arena): (b: Arena)
    requires Closed(a)
    ensures Closed(b) && Extends(a, b) && a.next in b.nodes && a.next !in a.nodes
  {
    NewNodeKeeps(a);
    a.(nodes := a.nodes[a.next := EmptyNode], next := a.next + 1)
  }

  /** The lookup walk of `getRoute` (lines 60-73): literal child first, then `'*'`, else null. */
  function LookupFrom(nodes: map<NodeId, TrieNode>, cur: NodeId, pieces: seq<string>,
                      params: map<Option<string>, string>): (r: Option<(NodeId, map<Option<string>, string>)>)
    requires ChildrenIn(nodes) && cur in nodes
    ensures r.Some? ==> r.value.0 in nodes
    decreases |pieces|
  {
    if pieces == [] then Some((cur, params))
    else match Find(nodes[cur].children, pieces[0])
      case Some(c) => LookupFrom(nodes, c, pieces[1..], params)
      case None =>
        match Find(nodes[cur].children, ParamPieceKey)
        case Some(c) => LookupFrom(nodes, c, pieces[1..], params[nodes[c].piece := pieces[0]])
        case None => None
  }

  /** What `getRoute(method, path)` returns (lines 55-80). */
  function ResolveRoute(nodes: map<NodeId, TrieNode>, root: NodeId, httpMethod: string, path: string): (r: Option<Route>)
    requires ChildrenIn(nodes) && root in nodes
    ensures LookupFrom(nodes, root, DeltaUtils.PathPieces(path), map[]).None? ==> r.None?
    ensures r.Some? ==>
              var end := LookupFrom(nodes, root, DeltaUtils.PathPieces(path), map[]).value;
              && nodes[end.0].httpMethod.Some?
              && MethodName(nodes[end.0].httpMethod.value) == httpMethod
              && nodes[end.0].handler == Some(r.value.handler)
              && r.value.params == end.1
  {
    match LookupFrom(nodes, root, DeltaUtils.PathPieces(path), map[])
    case None => None
    case Some((n, params)) =>
      if nodes[n].httpMethod.None? || MethodName(nodes[n].httpMethod.value) != httpMethod || nodes[n].handler.None? then None
      else Some(Route(params, nodes[n].handler.value))
  }

  /** Follows exactly the given keys from `cur` (no `'*'` fallback). */
  function WalkKeys(nodes: map<NodeId, TrieNode>, cur: NodeId, keys: seq<string>): (r: Option<NodeId>)
    requires ChildrenIn(nodes) && cur in nodes
    ensures r.Some? ==> r.value in nodes
    decreases |keys|
  {
    if keys == [] then Some(cur)
    else match Find(nodes[cur].children, keys[0])
      case None => None
      case Some(c) => WalkKeys(nodes, c, keys[1..])
  }

  /** The keys of a non-empty piece list: the first piece's key, then the rest's. */
  lemma KeysCons(pieces: seq<PathPiece>)
    requires pieces != []
    ensures Keys(pieces) == [PieceKey(pieces[0])] + Keys(pieces[1..])
  {
  }

  /** An edge survives every extension of the arena. */
  lemma FindKept(a: Arena, b: Arena, id: NodeId, key: string)
    requires Extends(a, b) && id in a.nodes && Find(a.nodes[id].children, key).Some?
    ensures Find(b.nodes[id].children, key) == Find(a.nodes[id].children, key)
  {
    FindPrefix(a.nodes[id].children, b.nodes[id].children, key);
  }

  /** Following `[key] + rest` from `cur` is following `rest` from the child under `key`. */
  lemma WalkKeysCons(nodes: map<NodeId, TrieNode>, cur: NodeId, key: string, child: NodeId, rest: seq<string>)
    requires ChildrenIn(nodes) && cur in nodes
    requires Find(nodes[cur].children, key) == Some(child)
    ensures WalkKeys(nodes, cur, [key] + rest) == WalkKeys(nodes, child, rest)
  {
    assert ([key] + rest)[0] == key && ([key] + rest)[1..] == rest;
  }

  /** Following `k1 + k2` is following `k1`, then `k2`. */
  lemma {:induction false} WalkKeysAppend(nodes: map<NodeId, TrieNode>, cur: NodeId, k1: seq<string>, k2: seq<string>)
    requires ChildrenIn(nodes) && cur in nodes
    requires WalkKeys(nodes, cur, k1).Some?
    ensures WalkKeys(nodes, cur, k1 + k2) == WalkKeys(nodes, WalkKeys(nodes, cur, k1).value, k2)
    decreases |k1|
  {
    if k1 == [] {
      assert k1 + k2 == k2;
    } else {
      assert (k1 + k2)[0] == k1[0] && (k1 + k2)[1..] == k1[1..] + k2;
      WalkKeysAppend(nodes, Find(nodes[cur].children, k1[0]).value, k1[1..], k2);
    }
  }

  /** A path of edges survives every extension of the arena. */
  lemma {:induction false} WalkKeysKept(a: Arena, b: Arena, cur: NodeId, keys: seq<string>)
    requires Closed(a) && Closed(b) && Extends(a, b) && cur in a.nodes
    requires WalkKeys(a.nodes, cur, keys).Some?
    ensures WalkKeys(b.nodes, cur, keys) == WalkKeys(a.nodes, cur, keys)
    decreases |keys|
  {
    if keys != [] {
      var c := Find(a.nodes[cur].children, keys[0]).value;
      FindKept(a, b, cur, keys[0]);
      WalkKeysKept(a, b, c, keys[1..]);
    }
  }

  /** The registration walk ends where following the stored keys ends. */
  lemma {:induction false} WalkInsertReaches(a: Arena, cur: NodeId, pieces: seq<PathPiece>)
    requires Closed(a) && cur in a.nodes
    ensures WalkKeys(WalkInsert(a, cur, pieces).0.nodes, cur, Keys(pieces)) == Some(WalkInsert(a, cur, pieces).1)
    decreases |pieces|
  {
    if pieces != [] {
      var (a2, child) := InsertStep(a, cur, pieces[0]);
      var r := WalkInsert(a2, child, pieces[1..]);
      WalkInsertReaches(a2, child, pieces[1..]);
      KeysCons(pieces);
      FindKept(a2, r.0, cur, PieceKey(pieces[0]));
      WalkKeysCons(r.0.nodes, cur, PieceKey(pieces[0]), child, Keys(pieces[1..]));
    }
  }

  /** On a path that already exists, the registration walk creates nothing new on the way and ends at its end. */
  lemma {:induction false} WalkInsertExisting(a: Arena, cur: NodeId, pieces: seq<PathPiece>)
    requires Closed(a) && cur in a.nodes
    requires WalkKeys(a.nodes, cur, Keys(pieces)).Some?
    ensures WalkInsert(a, cur, pieces).1 == WalkKeys(a.nodes, cur, Keys(pieces)).value
    decreases |pieces|
  {
    if pieces != [] {
      var key := PieceKey(pieces[0]);
      var (a2, child) := InsertStep(a, cur, pieces[0]);
      assert Keys(pieces)[1..] == Keys(pieces[1..]);
      assert child == Find(a.nodes[cur].children, key).value;
      WalkKeysKept(a, a2, child, Keys(pieces[1..]));
      WalkInsertExisting(a2, child, pieces[1..]);
    }
  }

  /**
   * The mount loop read on the mount node's child list alone: whether it throws, and the
   * list it leaves behind.
   */
  function MountedChildren(children: seq<(string, NodeId)>, entries: seq<(string, NodeId)>): (bool, seq<(string, NodeId)>)
    decreases |entries|
  {
    if entries == [] then (false, children)
    else if Find(children, entries[0].0).Some? then (true, children)
    else MountedChildren(children + [entries[0]], entries[1..])
  }

  /** `Mount` does to the mount node's children what `MountedChildren` says, and throws when it says. */
  lemma {:induction false} MountMatchesChildren(a: Arena, target: NodeId, entries: seq<(string, NodeId)>)
    requires Closed(a) && target in a.nodes
    requires forall i :: 0 <= i < |entries| ==> entries[i].1 in a.nodes
    ensures var m := MountedChildren(a.nodes[target].children, entries);
            && Mount(a, target, entries).Threw? == m.0
            && Mount(a, target, entries).arena.nodes[target].children == m.1
    decreases |entries|
  {
    if entries != [] && Find(a.nodes[target].children, entries[0].0).None? {
      var b := MountCons(a, target, entries);
      MountMatchesChildren(b, target, entries[1..]);
    }
  }

  /** A successful mount appends every entry, in order, to the mount node's children. */
  lemma MountDoneAppends(a: Arena, target: NodeId, entries: seq<(string, NodeId)>)
    requires Closed(a) && target in a.nodes
    requires forall i :: 0 <= i < |entries| ==> entries[i].1 in a.nodes
    requires Mount(a, target, entries).Done?
    ensures Mount(a, target, entries).arena.nodes[target].children == a.nodes[target].children + entries
  {
    MountMatchesChildren(a, target, entries);
    MountedDoneAppends(a.nodes[target].children, entries);
  }

  /** When the loop does not throw, it appends every entry in order. */
  lemma {:induction false} MountedDoneAppends(children: seq<(string, NodeId)>, entries: seq<(string, NodeId)>)
    requires !MountedChildren(children, entries).0
    ensures MountedChildren(children, entries).1 == children + entries
    decreases |entries|
  {
    if entries != [] {
      MountedDoneAppends(children + [entries[0]], entries[1..]);
      AppendCons(children, entries);
    }
  }

  /** The first entry of a mount either clashes, or is appended and the mount goes on with the rest. */
  lemma MountCons(a: Arena, target: NodeId, entries: seq<(string, NodeId)>) returns (b: Arena)
    requires Closed(a) && target in a.nodes && entries != []
    requires forall i :: 0 <= i < |entries| ==> entries[i].1 in a.nodes
    ensures Find(a.nodes[target].children, entries[0].0).None? ==>
              && b == AddChild(a, target, entries[0].0, entries[0].1)
              && Closed(b) && Extends(a, b) && target in b.nodes
              && b.nodes[target].children == a.nodes[target].children + [entries[0]]
              && (forall i :: 0 <= i < |entries| - 1 ==> entries[1..][i].1 in b.nodes)
              && Mount(a, target, entries) == Mount(b, target, entries[1..])
  {
    b := AddChild(a, target, entries[0].0, entries[0].1);
    if Find(a.nodes[target].children, entries[0].0).None? {
      AddChildKeeps(a, target, entries[0].0, entries[0].1);
    }
  }

  /** Moving the head of `entries` onto the end of `front`, for a prefix of `entries`. */
  lemma AppendConsPrefix<T>(front: seq<T>, entries: seq<T>, k: nat)
    requires k < |entries|
    ensures (front + [entries[0]]) + entries[1..][..k] == front + entries[..k + 1]
  {
    assert entries[..k + 1] == [entries[0]] + entries[1..][..k];
  }

  /** Moving the head of `entries` onto the end of `front`. */
  lemma AppendCons<T>(front: seq<T>, entries: seq<T>)
    requires entries != []
    ensures (front + [entries[0]]) + entries[1..] == front + entries
  {
  }

  /** Mounting throws exactly when one of the nested root's keys is already a child key of the mount node. */
  lemma MountThrowsIffClash(a: Arena, target: NodeId, entries: seq<(string, NodeId)>)
    requires Closed(a) && target in a.nodes
    requires forall i :: 0 <= i < |entries| ==> entries[i].1 in a.nodes
    requires UniqueKeys(entries)
    ensures Mount(a, target, entries).Threw? <==>
              exists i :: 0 <= i < |entries| && Find(a.nodes[target].children, entries[i].0).Some?
  {
    MountMatchesChildren(a, target, entries);
    var children := a.nodes[target].children;
    if MountedChildren(children, entries).0 {
      var j := MountedThrewCopiesPrefix(children, entries);
    } else {
      MountedDoneNoClash(children, entries);
    }
  }

  /** A mount that throws has copied exactly the entries before the first clashing one, `j`. */
  lemma MountThrewCopiesPrefix(a: Arena, target: NodeId, entries: seq<(string, NodeId)>) returns (j: nat)
    requires Closed(a) && target in a.nodes
    requires forall i :: 0 <= i < |entries| ==> entries[i].1 in a.nodes
    requires UniqueKeys(entries)
    requires Mount(a, target, entries).Threw?
    ensures j < |entries| && Find(a.nodes[target].children, entries[j].0).Some?
    ensures forall i :: 0 <= i < j ==> Find(a.nodes[target].children, entries[i].0).None?
    ensures Mount(a, target, entries).arena.nodes[target].children == a.nodes[target].children + entries[..j]
  {
    MountMatchesChildren(a, target, entries);
    j := MountedThrewCopiesPrefix(a.nodes[target].children, entries);
  }

  /** A loop that runs to the end met no entry whose key the list already had. */
  lemma {:induction false} MountedDoneNoClash(children: seq<(string, NodeId)>, entries: seq<(string, NodeId)>)
    requires UniqueKeys(entries)
    requires !MountedChildren(children, entries).0
    ensures forall i :: 0 <= i < |entries| ==> Find(children, entries[i].0).None?
    decreases |entries|
  {
    if entries != [] {
      var rest := entries[1..];
      MountedDoneNoClash(children + [entries[0]], rest);
      FindPastHead(children, entries);
      forall i | 0 < i < |entries|
        ensures Find(children, entries[i].0).None?
      {
        assert entries[i] == rest[i - 1];
      }
    }
  }

  /** A loop that throws stopped at the first clashing entry `j`, having appended the ones before it. */
  lemma {:induction false} MountedThrewCopiesPrefix(children: seq<(string, NodeId)>, entries: seq<(string, NodeId)>) returns (j: nat)
    requires UniqueKeys(entries)
    requires MountedChildren(children, entries).0
    ensures j < |entries| && Find(children, entries[j].0).Some?
    ensures forall i :: 0 <= i < j ==> Find(children, entries[i].0).None?
    ensures MountedChildren(children, entries).1 == children + entries[..j]
    decreases |entries|
  {
    if Find(children, entries[0].0).Some? {
      j := 0;
      assert children + entries[..0] == children;
    } else {
      var k := MountedThrewCopiesPrefix(children + [entries[0]], entries[1..]);
      ShiftClash(children, entries, k);
      AppendConsPrefix(children, entries, k);
      j := k + 1;
    }
  }

  /** The first clash among the entries after the head, seen past the appended head, is the first clash among all entries. */
  lemma ShiftClash(children: seq<(string, NodeId)>, entries: seq<(string, NodeId)>, k: nat)
    requires entries != [] && UniqueKeys(entries) && Find(children, entries[0].0).None?
    requires k < |entries| - 1 && Find(children + [entries[0]], entries[1..][k].0).Some?
    requires forall i :: 0 <= i < k ==> Find(children + [entries[0]], entries[1..][i].0).None?
    ensures Find(children, entries[k + 1].0).Some?
    ensures forall i :: 0 <= i < k + 1 ==> Find(children, entries[i].0).None?
  {
    FindPastHead(children, entries);
    assert entries[k + 1] == entries[1..][k];
    forall i | 0 < i < k + 1
      ensures Find(children, entries[i].0).None?
    {
      assert entries[i] == entries[1..][i - 1];
    }
  }

  /** With unique keys, appending the head entry does not change where the other entries' keys are found. */
  lemma FindPastHead(children: seq<(string, NodeId)>, entries: seq<(string, NodeId)>)
    requires entries != [] && UniqueKeys(entries) && Find(children, entries[0].0).None?
    ensures forall i :: 0 <= i < |entries| - 1 ==>
              Find(children + [entries[0]], entries[1..][i].0) == Find(children, entries[1..][i].0)
  {
    forall i | 0 <= i < |entries| - 1
      ensures Find(children + [entries[0]], entries[1..][i].0) == Find(children, entries[1..][i].0)
    {
      assert entries[1..][i] == entries[i + 1];
      FindAppend(children, entries[0], entries[1..][i].0);
    }
  }

  /** Construction is the registration of every item below a fresh root. */
  lemma ConstructUnfold(a: Arena, items: seq<RouteSetup>)
    requires Closed(a) && ResolversIn(items, a)
    ensures Closed(WithRoot(a)) && ResolversIn(items, WithRoot(a))
    ensures Construct(a, items) == InsertAll(WithRoot(a), a.next, items)
  {
  }

  /** One registration, taken apart into its walk, its mount and its final write. */
  lemma InsertItemUnfold(a: Arena, root: NodeId, item: RouteSetup) returns (a1: Arena, target: NodeId, mounted: Outcome)
    requires Closed(a) && root in a.nodes
    requires item.resolver.Nested? ==> item.resolver.router.root in a.nodes
    ensures (a1, target) == WalkInsert(a, root, item.pieces)
    ensures Closed(a1) && Extends(a, a1) && target in a1.nodes
    ensures item.resolver.Nested? ==> item.resolver.router.root in a1.nodes
    ensures mounted == if item.resolver.Nested? then Mount(a1, target, a1.nodes[item.resolver.router.root].children) else Done(a1)
    ensures Closed(mounted.arena) && Extends(a1, mounted.arena) && target in mounted.arena.nodes
    ensures InsertItem(a, root, item) == if mounted.Threw? then mounted else Finish(mounted.arena, target, item)
  {
    var w := WalkInsert(a, root, item.pieces);
    a1, target := w.0, w.1;
    mounted := if item.resolver.Nested? then Mount(a1, target, a1.nodes[item.resolver.router.root].children) else Done(a1);
  }

  /** The keys of `item` lead from `root` to a node holding its resolver and method. */
  ghost predicate Registered(b: Arena, root: NodeId, item: RouteSetup)
    requires Closed(b) && root in b.nodes
  {
    var t := WalkKeys(b.nodes, root, Keys(item.pieces));
    && t.Some?
    && b.nodes[t.value].handler == Some(item.resolver)
    && b.nodes[t.value].httpMethod == Some(item.httpMethod)
  }

  /** A registration stays in place in every extension of the arena. */
  lemma RegisteredKept(a: Arena, b: Arena, root: NodeId, item: RouteSetup)
    requires Closed(a) && Closed(b) && Extends(a, b) && root in a.nodes
    requires Registered(a, root, item)
    ensures Registered(b, root, item)
  {
    WalkKeysKept(a, b, root, Keys(item.pieces));
  }

  /** A registration that succeeds leaves its method and resolver on the node its keys lead to. */
  lemma InsertItemRegisters(a: Arena, root: NodeId, item: RouteSetup)
    requires Closed(a) && root in a.nodes
    requires item.resolver.Nested? ==> item.resolver.router.root in a.nodes
    requires InsertItem(a, root, item).Done?
    ensures Registered(InsertItem(a, root, item).arena, root, item)
  {
    var a1, target, mounted := InsertItemUnfold(a, root, item);
    WalkInsertReaches(a, root, item.pieces);
    var b := InsertItem(a, root, item).arena;
    WalkKeysKept(a1, mounted.arena, root, Keys(item.pieces));
    WalkKeysKept(mounted.arena, b, root, Keys(item.pieces));
  }

  /** Registering on a path whose node already holds a handler throws, whatever the methods. */
  lemma DuplicateHandlerThrows(a: Arena, root: NodeId, item: RouteSetup)
    requires Closed(a) && root in a.nodes
    requires item.resolver.Nested? ==> item.resolver.router.root in a.nodes
    requires Taken(a, root, Keys(item.pieces))
    ensures InsertItem(a, root, item).Threw?
    ensures item.resolver.Handler? ==> InsertItem(a, root, item).message == HandlerExistsMessage
  {
    var a1, target, mounted := InsertItemUnfold(a, root, item);
    WalkInsertExisting(a, root, item.pieces);
  }

  /** Every registration of a router that was built is found by following its keys. */
  lemma {:induction false} InsertAllRegisters(a: Arena, root: NodeId, items: seq<RouteSetup>, b: Arena, k: nat)
    requires Closed(a) && root in a.nodes && ResolversIn(items, a)
    requires InsertAll(a, root, items) == Done(b) && k < |items|
    ensures Closed(b) && root in b.nodes && Registered(b, root, items[k])
    decreases |items|, 1
  {
    if k == 0 {
      FirstRegistered(a, root, items, b);
    } else {
      LaterRegistered(a, root, items, b, k);
    }
  }

  /** A later registration of a successful construction is one of the rest's registrations. */
  lemma {:induction false} LaterRegistered(a: Arena, root: NodeId, items: seq<RouteSetup>, b: Arena, k: nat)
    requires Closed(a) && root in a.nodes && ResolversIn(items, a)
    requires InsertAll(a, root, items) == Done(b) && 0 < k < |items|
    ensures Closed(b) && root in b.nodes && Registered(b, root, items[k])
    decreases |items|, 0
  {
    var first := InsertAllCons(a, root, items);
    InsertAllRegisters(first, root, items[1..], b, k - 1);
    assert items[1..][k - 1] == items[k];
  }

  /** The first registration of a successful construction stays in place to the end. */
  lemma FirstRegistered(a: Arena, root: NodeId, items: seq<RouteSetup>, b: Arena)
    requires Closed(a) && root in a.nodes && ResolversIn(items, a)
    requires InsertAll(a, root, items) == Done(b) && items != []
    ensures Closed(b) && root in b.nodes && Registered(b, root, items[0])
  {
    var first := InsertAllCons(a, root, items);
    InsertItemRegisters(a, root, items[0]);
    RegisteredKept(first, b, root, items[0]);
  }

  /** A construction that succeeded went on from the arena its first registration left. */
  lemma InsertAllCons(a: Arena, root: NodeId, items: seq<RouteSetup>) returns (first: Arena)
    requires Closed(a) && root in a.nodes && ResolversIn(items, a)
    requires items != [] && InsertAll(a, root, items).Done?
    ensures InsertItem(a, root, items[0]) == Done(first)
    ensures Closed(first) && Extends(a, first) && root in first.nodes && ResolversIn(items[1..], first)
    ensures InsertAll(a, root, items) == InsertAll(first, root, items[1..])
  {
    first := InsertItem(a, root, items[0]).arena;
  }

  /** The keys lead from `root` to a node that already holds a handler. */
  ghost predicate Taken(a: Arena, root: NodeId, keys: seq<string>)
    requires Closed(a) && root in a.nodes
  {
    WalkKeys(a.nodes, root, keys).Some? && a.nodes[WalkKeys(a.nodes, root, keys).value].handler.Some?
  }

  /** Once a node holds a handler, no later registration with the same keys can succeed. */
  lemma {:induction false} TakenPathStaysTaken(a: Arena, root: NodeId, items: seq<RouteSetup>, b: Arena, keys: seq<string>)
    requires Closed(a) && root in a.nodes && ResolversIn(items, a)
    requires Taken(a, root, keys)
    requires InsertAll(a, root, items) == Done(b)
    ensures forall k :: 0 <= k < |items| ==> Keys(items[k].pieces) != keys
    decreases |items|
  {
    if items != [] {
      if Keys(items[0].pieces) == keys {
        DuplicateHandlerThrows(a, root, items[0]);
      }
      var first := InsertAllCons(a, root, items);
      WalkKeysKept(a, first, root, keys);
      TakenPathStaysTaken(first, root, items[1..], b, keys);
      forall k | 1 <= k < |items|
        ensures Keys(items[k].pieces) != keys
      {
        assert items[1..][k - 1] == items[k];
      }
    }
  }

  /** No registration after the first of a successful construction repeats its keys. */
  lemma FirstKeysNotRepeated(a: Arena, root: NodeId, items: seq<RouteSetup>, b: Arena)
    requires Closed(a) && root in a.nodes && ResolversIn(items, a)
    requires InsertAll(a, root, items) == Done(b) && items != []
    ensures forall k :: 0 <= k < |items| - 1 ==> Keys(items[1..][k].pieces) != Keys(items[0].pieces)
  {
    var first := InsertAllCons(a, root, items);
    InsertItemRegisters(a, root, items[0]);
    TakenPathStaysTaken(first, root, items[1..], b, Keys(items[0].pieces));
  }

  /** No two registrations have the same keys. */
  ghost predicate DistinctKeys(items: seq<RouteSetup>)
  {
    forall i, j :: 0 <= i < j < |items| ==> Keys(items[i].pieces) != Keys(items[j].pieces)
  }

  /** A router whose construction succeeded has no two registrations with the same keys. */
  lemma {:induction false} BuiltRoutesAreDistinct(a: Arena, root: NodeId, items: seq<RouteSetup>, b: Arena)
    requires Closed(a) && root in a.nodes && ResolversIn(items, a)
    requires InsertAll(a, root, items) == Done(b)
    ensures DistinctKeys(items)
    decreases |items|
  {
    if items != [] {
      var first := InsertAllCons(a, root, items);
      FirstKeysNotRepeated(a, root, items, b);
      BuiltRoutesAreDistinct(first, root, items[1..], b);
      DistinctCons(items);
    }
  }

  /** Keys are distinct when the head's keys are not repeated and the tail's are distinct. */
  lemma DistinctCons(items: seq<RouteSetup>)
    requires items != []
    requires forall k :: 0 <= k < |items| - 1 ==> Keys(items[1..][k].pieces) != Keys(items[0].pieces)
    requires DistinctKeys(items[1..])
    ensures DistinctKeys(items)
  {
    forall i, j | 0 <= i < j < |items|
      ensures Keys(items[i].pieces) != Keys(items[j].pieces)
    {
      assert items[j] == items[1..][j - 1];
      if i > 0 {
        assert items[i] == items[1..][i - 1];
      }
    }
  }

  /**
   * After a successful mount of router `r` at the registered keys, every path of `r` that
   * starts at its root continues from the mount node to the same node.
   */
  lemma NestedPathsReachable(a: Arena, root: NodeId, item: RouteSetup, keys: seq<string>)
    requires Closed(a) && root in a.nodes
    requires item.resolver.Nested? && item.resolver.router.root in a.nodes
    requires InsertItem(a, root, item).Done?
    requires keys != [] && WalkKeys(a.nodes, item.resolver.router.root, keys).Some?
    ensures var b := InsertItem(a, root, item).arena;
            WalkKeys(b.nodes, root, Keys(item.pieces) + keys) == WalkKeys(a.nodes, item.resolver.router.root, keys)
  {
    var r := item.resolver.router.root;
    var a1, target, mounted := InsertItemUnfold(a, root, item);
    WalkInsertReaches(a, root, item.pieces);
    var entries := a1.nodes[r].children;
    var b := InsertItem(a, root, item).arena;
    MountDoneAppends(a1, target, entries);
    WalkKeysKept(a, a1, r, keys);
    var c := Find(a1.nodes[r].children, keys[0]).value;
    assert WalkKeys(a1.nodes, c, keys[1..]) == WalkKeys(a.nodes, r, keys);
    MountThrowsIffClash(a1, target, entries);
    FindInAppended(a1.nodes[target].children, entries, keys[0]);
    assert Find(mounted.arena.nodes[target].children, keys[0]) == Some(c);
    WalkKeysKept(a1, mounted.arena, c, keys[1..]);
    assert WalkKeys(mounted.arena.nodes, target, keys) == WalkKeys(a.nodes, r, keys);
    WalkKeysKept(mounted.arena, b, target, keys);
    WalkKeysKept(a1, b, root, Keys(item.pieces));
    WalkKeysAppend(b.nodes, root, Keys(item.pieces), keys);
  }

  /** A key missing from the front part is looked up in the appended part. */
  lemma {:induction false} FindInAppended(front: seq<(string, NodeId)>, back: seq<(string, NodeId)>, key: string)
    requires Find(front, key).None?
    ensures Find(front + back, key) == Find(back, key)
  {
    if front != [] {
      assert (front + back)[1..] == front[1..] + back;
      FindInAppended(front[1..], back, key);
    } else {
      assert front + back == back;
    }
  }

  /** A request that spells the stored keys takes the literal branch at every step (even `'*'`) and binds nothing. */
  lemma {:induction false} KeyPathLookup(nodes: map<NodeId, TrieNode>, cur: NodeId, keys: seq<string>, params: map<Option<string>, string>)
    requires ChildrenIn(nodes) && cur in nodes
    requires WalkKeys(nodes, cur, keys).Some?
    ensures LookupFrom(nodes, cur, keys, params) == Some((WalkKeys(nodes, cur, keys).value, params))
    decreases |keys|
  {
    if keys != [] {
      KeyPathLookup(nodes, Find(nodes[cur].children, keys[0]).value, keys[1..], params);
    }
  }

  /**
   * A request matches stored keys when, step by step, it either spells the key or, where the
   * key is `'*'`, names no literal child of the node it is at.
   */
  ghost predicate Matches(nodes: map<NodeId, TrieNode>, cur: NodeId, keys: seq<string>, request: seq<string>)
    requires ChildrenIn(nodes) && cur in nodes
    decreases |keys|
  {
    && |keys| == |request|
    && (keys != [] ==>
          && Find(nodes[cur].children, keys[0]).Some?
          && (request[0] == keys[0] || (keys[0] == ParamPieceKey && Find(nodes[cur].children, request[0]).None?))
          && Matches(nodes, Find(nodes[cur].children, keys[0]).value, keys[1..], request[1..]))
  }

  /** A matching request ends where the stored keys lead. */
  lemma {:induction false} MatchingLookup(nodes: map<NodeId, TrieNode>, cur: NodeId, keys: seq<string>,
                                          request: seq<string>, params: map<Option<string>, string>)
    requires ChildrenIn(nodes) && cur in nodes
    requires Matches(nodes, cur, keys, request)
    ensures WalkKeys(nodes, cur, keys).Some?
    ensures LookupFrom(nodes, cur, request, params).Some?
    ensures LookupFrom(nodes, cur, request, params).value.0 == WalkKeys(nodes, cur, keys).value
    decreases |keys|
  {
    if keys != [] {
      var c := Find(nodes[cur].children, keys[0]).value;
      if request[0] == keys[0] {
        MatchingLookup(nodes, c, keys[1..], request[1..], params);
      } else {
        MatchingLookup(nodes, c, keys[1..], request[1..], params[nodes[c].piece := request[0]]);
      }
    }
  }

  /**
   * The router built from `items` answers every request that matches a registration's keys
   * with that registration's resolver, exactly when the request method is the registered
   * method's name: no case folding and no `ALL` wildcard.
   */
  lemma RegisteredRouteResolves(a: Arena, items: seq<RouteSetup>, k: nat, httpMethod: string, path: string)
    requires Closed(a) && ResolversIn(items, a)
    requires Construct(a, items).Done? && k < |items|
    requires var b := Construct(a, items).arena;
             Matches(b.nodes, a.next, Keys(items[k].pieces), DeltaUtils.PathPieces(path))
    ensures var route := ResolveRoute(Construct(a, items).arena.nodes, a.next, httpMethod, path);
            && (route.Some? <==> httpMethod == MethodName(items[k].httpMethod))
            && (route.Some? ==> route.value.handler == items[k].resolver)
  {
    var b := Construct(a, items).arena;
    ConstructRegisters(a, items, k);
    RegisteredMatchResolves(b, a.next, items[k], httpMethod, path);
  }

  /** Every registration of a router that was built is in place in the built arena. */
  lemma ConstructRegisters(a: Arena, items: seq<RouteSetup>, k: nat)
    requires Closed(a) && ResolversIn(items, a)
    requires Construct(a, items).Done? && k < |items|
    ensures Closed(Construct(a, items).arena) && a.next in Construct(a, items).arena.nodes
    ensures Registered(Construct(a, items).arena, a.next, items[k])
  {
    ConstructUnfold(a, items);
    InsertAllRegisters(WithRoot(a), a.next, items, Construct(a, items).arena, k);
  }

  /** A request matching the keys of a registration in place is answered by its resolver, for its method only. */
  lemma RegisteredMatchResolves(b: Arena, root: NodeId, item: RouteSetup, httpMethod: string, path: string)
    requires Closed(b) && root in b.nodes && Registered(b, root, item)
    requires Matches(b.nodes, root, Keys(item.pieces), DeltaUtils.PathPieces(path))
    ensures var route := ResolveRoute(b.nodes, root, httpMethod, path);
            && (route.Some? <==> httpMethod == MethodName(item.httpMethod))
            && (route.Some? ==> route.value.handler == item.resolver)
  {
    MatchingLookup(b.nodes, root, Keys(item.pieces), DeltaUtils.PathPieces(path), map[]);
  }

  /** `getRoute` answers null unless the node it reaches has a handler and exactly the requested method name. */
  lemma ResolvedNodeHasMethodAndHandler(nodes: map<NodeId, TrieNode>, root: NodeId, httpMethod: string, path: string)
    requires ChildrenIn(nodes) && root in nodes
    requires ResolveRoute(nodes, root, httpMethod, path).Some?
    ensures var end := LookupFrom(nodes, root, DeltaUtils.PathPieces(path), map[]);
            && end.Some?
            && nodes[end.value.0].httpMethod.Some?
            && MethodName(nodes[end.value.0].httpMethod.value) == httpMethod
            && nodes[end.value.0].handler == Some(ResolveRoute(nodes, root, httpMethod, path).value.handler)
            && ResolveRoute(nodes, root, httpMethod, path).value.params == end.value.1
  {
  }

  /** Lookup never backtracks: once a literal child is taken, a failure below it is final. */
  lemma LiteralFirstNoBacktrack(nodes: map<NodeId, TrieNode>, cur: NodeId, piece: string, rest: seq<string>,
                                params: map<Option<string>, string>)
    requires ChildrenIn(nodes) && cur in nodes
    requires Find(nodes[cur].children, piece).Some?
    requires LookupFrom(nodes, Find(nodes[cur].children, piece).value, rest, params).None?
    ensures LookupFrom(nodes, cur, [piece] + rest, params).None?
  {
    assert ([piece] + rest)[1..] == rest;
  }

  /** A path made only of slashes (or empty) is answered by the root node itself. */
  lemma SlashOnlyPathAtRoot(nodes: map<NodeId, TrieNode>, root: NodeId, httpMethod: string, path: string)
    requires ChildrenIn(nodes) && root in nodes
    requires forall i :: 0 <= i < |path| ==> path[i] == '/'
    ensures ResolveRoute(nodes, root, httpMethod, path) ==
              if nodes[root].httpMethod.Some? && MethodName(nodes[root].httpMethod.value) == httpMethod && nodes[root].handler.Some?
              then Some(Route(map[], nodes[root].handler.value)) else None
  {
    DeltaUtils.OnlySlashesHaveNoPieces(path);
  }

  /**
   * Line 31 writes a piece's name onto the node being LEFT: after a step from `cur`, `cur`
   * carries the name, no other existing node changes, and a child created by the step is blank.
   */
  lemma PieceWrittenOnNodeLeft(a: Arena, cur: NodeId, p: PathPiece)
    requires Closed(a) && cur in a.nodes
    ensures var (b, child) := InsertStep(a, cur, p);
            && b.nodes[cur].piece == Some(PieceName(p))
            && (forall id :: id in a.nodes && id != cur ==> id in b.nodes && b.nodes[id] == a.nodes[id])
            && (Find(a.nodes[cur].children, PieceKey(p)).None? ==>
                  && child == a.next && b.next == a.next + 1 && b.nodes[child] == EmptyNode
                  && b.nodes[cur].children == a.nodes[cur].children + [(PieceKey(p), child)])
            && (Find(a.nodes[cur].children, PieceKey(p)).Some? ==>
                  && child == Find(a.nodes[cur].children, PieceKey(p)).value && b.next == a.next
                  && b.nodes[cur].children == a.nodes[cur].children)
  {
    var key := PieceKey(p);
    if Find(a.nodes[cur].children, key).None? {
      FindAppend(a.nodes[cur].children, (key, a.next), key);
    }
  }

  /**
   * A trailing parameter is looked up under the null key: the node its step created was never
   * left by a later step, so its `piece` is still null when line 68 reads it.
   */
  lemma TrailingParamKeyIsNull(a: Arena, cur: NodeId, p: PathPiece, request: string, params: map<Option<string>, string>)
    requires Closed(a) && cur in a.nodes && p.isParam
    requires Find(a.nodes[cur].children, ParamPieceKey).None? && Find(a.nodes[cur].children, request).None?
    requires request != ParamPieceKey
    ensures var (b, child) := InsertStep(a, cur, p);
            LookupFrom(b.nodes, cur, [request], params) == Some((child, params[None := request]))
  {
    PieceWrittenOnNodeLeft(a, cur, p);
    var (b, child) := InsertStep(a, cur, p);
    FindAppend(a.nodes[cur].children, (ParamPieceKey, child), request);
    assert [request][1..] == [];
  }

  /**
   * A parameter followed by a literal is looked up under the literal's text, not the
   * parameter's own name: the next step wrote the literal onto the parameter's node.
   */
  lemma ParamKeyIsNextPiece(a: Arena, cur: NodeId, p0: PathPiece, p1: PathPiece, request: string,
                            params: map<Option<string>, string>)
    requires Closed(a) && cur in a.nodes && p0.isParam && !p1.isParam
    requires Find(a.nodes[cur].children, ParamPieceKey).None? && Find(a.nodes[cur].children, request).None?
    requires request != ParamPieceKey
    ensures var (a1, c1) := InsertStep(a, cur, p0);
            var (a2, c2) := InsertStep(a1, c1, p1);
            LookupFrom(a2.nodes, cur, [request, p1.value], params) == Some((c2, params[Some(p1.value) := request]))
  {
    PieceWrittenOnNodeLeft(a, cur, p0);
    var (a1, c1) := InsertStep(a, cur, p0);
    PieceWrittenOnNodeLeft(a1, c1, p1);
    var (a2, c2) := InsertStep(a1, c1, p1);
    FindAppend(a.nodes[cur].children, (ParamPieceKey, c1), request);
    FindAppend(a.nodes[cur].children, (ParamPieceKey, c1), ParamPieceKey);
    assert c1 == a.next && c1 != cur;
    assert a2.nodes[cur] == a1.nodes[cur];
    assert a2.nodes[c1].children == [(p1.value, c2)] && a2.nodes[c1].piece == Some(p1.value);
    var after := params[Some(p1.value) := request];
    assert LookupFrom(a2.nodes, c1, [p1.value], after) == Some((c2, after)) by {
      assert [p1.value][1..] == [];
    }
    assert [request, p1.value][1..] == [p1.value];
  }

  /** A router whose construction succeeded has no two registrations with the same keys. */
  lemma ConstructedRoutesAreDistinct(a: Arena, items: seq<RouteSetup>)
    requires Closed(a) && ResolversIn(items, a)
    requires Construct(a, items).Done?
    ensures DistinctKeys(items)
  {
    ConstructUnfold(a, items);
    BuiltRoutesAreDistinct(WithRoot(a), a.next, items, Construct(a, items).arena);
  }

  /** The nodes of all routers, which the constructors of `DeltaRouter` write in place. */
  class TrieHeap {
    var nodes: map<NodeId, TrieNode>
    var nextId: NodeId

    ghost function State(): Arena
      reads this
    {
      Arena(nodes, nextId)
    }

    ghost predicate Valid()
      reads this
    {
      Closed(State())
    }

    constructor ()
      ensures Valid() && nodes == map[] && nextId == 0
    {
      nodes := map[];
      nextId := 0;
    }

    /**
     * `createRouter(...items)`, that is `new DeltaRouter(items)` (lines 15-53, 83-85): allocate
     * the root, then register every item; the first error thrown ends the construction.
     */
    method CreateRouter(items: seq<RouteSetup>) returns (r: Result<Router>)
      requires Valid() && ResolversIn(items, State())
      modifies this
      ensures Valid()
      ensures var out := Construct(old(State()), items);
              && State() == out.arena
              && r == if out.Threw? then Err(out.message) else Ok(Router(old(nextId)))
    {
      ghost var a0 := State();
      var root := nextId;
      nodes := nodes[root := EmptyNode];
      nextId := nextId + 1;
      NewNodeKeeps(a0);
      ConstructUnfold(a0, items);
      assert State() == WithRoot(a0);
      assert items[0..] == items;
      var k := 0;
      while k < |items|
        invariant 0 <= k <= |items|
        invariant Valid() && root in nodes && ResolversIn(items[k..], State())
        invariant Construct(a0, items) == InsertAll(State(), root, items[k..])
      {
        assert items[k..][0] == items[k] && items[k..][1..] == items[k + 1..];
        ghost var before := State();
        var error := Insert(root, items[k]);
        assert Extends(before, State());
        if error.Some? {
          return Err(error.value);
        }
        k := k + 1;
      }
      return Ok(Router(root));
    }

    /** One pass of the constructor's loop body (lines 20-51). */
    method Insert(root: NodeId, item: RouteSetup) returns (error: Option<string>)
      requires Valid() && root in nodes
      requires item.resolver.Nested? ==> item.resolver.router.root in nodes
      modifies this
      ensures Valid()
      ensures var out := InsertItem(old(State()), root, item);
              && State() == out.arena
              && error == if out.Threw? then Some(out.message) else None
    {
      var target := Walk(root, item.pieces);
      if item.resolver.Nested? {
        var entries := nodes[item.resolver.router.root].children;
        var clash := MountInto(target, entries);
        if clash {
          return Some(RouterExistsMessage);
        }
      }
      if nodes[target].handler.Some? {
        return Some(HandlerExistsMessage);
      }
      nodes := nodes[target := nodes[target].(httpMethod := Some(item.httpMethod), handler := Some(item.resolver))];
      return None;
    }

    /** The walk of lines 24-33: create missing children, write `piece` on each node left. */
    method Walk(root: NodeId, pieces: seq<PathPiece>) returns (target: NodeId)
      requires Valid() && root in nodes
      modifies this
      ensures Valid() && target in nodes
      ensures (State(), target) == WalkInsert(old(State()), root, pieces)
    {
      ghost var a0 := State();
      var cur := root;
      var i := 0;
      while i < |pieces|
        invariant 0 <= i <= |pieces|
        invariant Valid() && cur in nodes
        invariant WalkInsert(a0, root, pieces) == WalkInsert(State(), cur, pieces[i..])
      {
        cur := Step(cur, pieces[i]);
        assert pieces[i..][1..] == pieces[i + 1..];
        i := i + 1;
      }
      target := cur;
    }

    /** One iteration of the walk (lines 25-32). */
    method Step(cur: NodeId, piece: PathPiece) returns (child: NodeId)
      requires Valid() && cur in nodes
      modifies this
      ensures Valid() && child in nodes
      ensures (State(), child) == InsertStep(old(State()), cur, piece)
    {
      ghost var before := State();
      var key := PieceKey(piece);
      if Find(nodes[cur].children, key).None? {
        var newId := nextId;
        nodes := nodes[newId := EmptyNode];
        nextId := nextId + 1;
        ghost var withChild := State();
        nodes := nodes[cur := nodes[cur].(children := nodes[cur].children + [(key, newId)])];
        assert State() == AddChild(withChild, cur, key, newId);
      }
      assert State() == GrowChild(before, cur, key);
      ghost var grown := State();
      nodes := nodes[cur := nodes[cur].(piece := Some(PieceName(piece)))];
      assert State() == SetPiece(grown, cur, PieceName(piece));
      child := Find(nodes[cur].children, key).value;
    }

    /** The mount loop of lines 37-43: copy the entries in order, stop at the first clash. */
    method MountInto(target: NodeId, entries: seq<(string, NodeId)>) returns (clash: bool)
      requires Valid() && target in nodes
      requires forall e :: 0 <= e < |entries| ==> entries[e].1 in nodes
      modifies this
      ensures Valid() && target in nodes
      ensures var out := Mount(old(State()), target, entries);
              State() == out.arena && clash == out.Threw?
    {
      ghost var a0 := State();
      var j := 0;
      while j < |entries|
        invariant 0 <= j <= |entries|
        invariant Valid() && target in nodes
        invariant forall e :: 0 <= e < |entries| ==> entries[e].1 in nodes
        invariant Mount(a0, target, entries) == Mount(State(), target, entries[j..])
      {
        ghost var before := State();
        var (key, child) := entries[j];
        if Find(nodes[target].children, key).Some? {
          return true;
        }
        assert entries[j..][0] == (key, child) && entries[j..][1..] == entries[j + 1..];
        ghost var after := MountCons(before, target, entries[j..]);
        nodes := nodes[target := nodes[target].(children := nodes[target].children + [(key, child)])];
        assert State() == after;
        j := j + 1;
      }
      return false;
    }

    /** `getRoute(method, path)` (lines 55-80); it reads the nodes and writes none. */
    method GetRoute(router: Router, httpMethod: string := "", path: string := "") returns (route: Option<Route>)
      requires Valid() && router.root in nodes
      ensures route == ResolveRoute(nodes, router.root, httpMethod, path)
    {
      var pieces := DeltaUtils.PathPieces(path);
      var params: map<Option<string>, string> := map[];
      var cur := router.root;
      var i := 0;
      while i < |pieces|
        invariant 0 <= i <= |pieces| && cur in nodes
        invariant LookupFrom(nodes, router.root, pieces, map[]) == LookupFrom(nodes, cur, pieces[i..], params)
      {
        assert pieces[i..][0] == pieces[i] && pieces[i..][1..] == pieces[i + 1..];
        var literal := Find(nodes[cur].children, pieces[i]);
        if literal.Some? {
          cur := literal.value;
        } else {
          var param := Find(nodes[cur].children, ParamPieceKey);
          if param.None? {
            return None;
          }
          cur := param.value;
          params := params[nodes[cur].piece := pieces[i]];
        }
        i := i + 1;
      }
      if nodes[cur].httpMethod.None? || MethodName(nodes[cur].httpMethod.value) != httpMethod || nodes[cur].handler.None? {
        return None;
      }
      return Some(Route(params, nodes[cur].handler.value));
    }
  }
}
