/** The model graph and the functions of repoze/bfg/traversal.py that only
    follow `__parent__` links: `lineage` (from repoze/bfg/location.py, which
    is not part of this model), `find_root`, `find_interface`,
    `_model_path_list`, `model_path_tuple` and `model_path`. */
module Location {
  import opened Wrappers
  import opened ByteStrings
  import opened PathSegments

  type NodeId = nat

  /** A model object: its `__name__`, its `__parent__`, and its children
      when it has a `__getitem__` (`None` when it has none). */
  datatype Node = Node(name: Option<string>, parent: Option<NodeId>, children: Option<map<string, NodeId>>)

  /** The application's objects.  `depth` is a proof device only: every
      parent is shallower than its child, so parent chains are acyclic, which
      the source leaves to its callers. */
  datatype Graph = Graph(nodes: map<NodeId, Node>, ghost depth: map<NodeId, nat>)
  {
    ghost predicate Valid()
    {
      (forall id :: id in nodes ==> id in depth) &&
      (forall id :: id in nodes && nodes[id].parent.Some? ==>
         nodes[id].parent.value in nodes && depth[nodes[id].parent.value] < depth[id]) &&
      (forall id, k :: id in nodes && nodes[id].children.Some? && k in nodes[id].children.value ==>
         nodes[id].children.value[k] in nodes)
    }
  }

  /** `lineage(m)`: `m`, its parent, its parent's parent, and so on up to
      and including the first object whose parent is `None`. */
  function Lineage(g: Graph, m: NodeId): (r: seq<NodeId>)
    requires g.Valid() && m in g.nodes
    ensures |r| >= 1 && r[0] == m
    ensures forall k :: 0 <= k < |r| ==> r[k] in g.nodes
    ensures forall k :: 0 <= k < |r| - 1 ==> g.nodes[r[k]].parent == Some(r[k + 1])
    ensures g.nodes[r[|r| - 1]].parent.None?
    decreases g.depth[m]
  {
    match g.nodes[m].parent
    case None => [m]
    case Some(p) => [m] + Lineage(g, p)
  }

  /** The physical root of the graph `m` belongs to: the end of its lineage. */
  function Root(g: Graph, m: NodeId): (r: NodeId)
    requires g.Valid() && m in g.nodes
  {
    Lineage(g, m)[|Lineage(g, m)| - 1]
  }

  /** `find_root(model)`: walks the lineage and stops at the first object
      whose parent is `None`; that object ends the lineage. */
  method FindRoot(g: Graph, model: NodeId) returns (r: NodeId)
    requires g.Valid() && model in g.nodes
    ensures r in g.nodes && g.nodes[r].parent.None?
    ensures r == Lineage(g, model)[|Lineage(g, model)| - 1]
  {
    ghost var chain := Lineage(g, model);
    ghost var k := 0;
    var location := model;
    while g.nodes[location].parent.Some?
      invariant location in g.nodes
      invariant 0 <= k < |chain| && chain[k] == location
      invariant k < |chain| - 1 ==> g.nodes[chain[k]].parent == Some(chain[k + 1])
      decreases g.depth[location]
    {
      location := g.nodes[location].parent.value;
      k := k + 1;
    }
    r := location;
  }

  /** `find_interface(model, class_or_interface)`: the first object of the
      lineage that passes `test`, or `None` when none does.  The
      `providedBy`/`isinstance` choice becomes the predicate `test`. */
  method FindInterface(g: Graph, model: NodeId, test: NodeId -> bool) returns (r: Option<NodeId>)
    requires g.Valid() && model in g.nodes
    ensures r.None? ==> forall k :: 0 <= k < |Lineage(g, model)| ==> !test(Lineage(g, model)[k])
    ensures r.Some? ==> exists k :: 0 <= k < |Lineage(g, model)| && Lineage(g, model)[k] == r.value &&
                                     test(r.value) &&
                                     forall j :: 0 <= j < k ==> !test(Lineage(g, model)[j])
  {
    ghost var chain := Lineage(g, model);
    ghost var k := 0;
    var location := model;
    while true
      invariant location in g.nodes
      invariant 0 <= k < |chain| && chain[k] == location
      invariant forall j :: 0 <= j < k ==> !test(chain[j])
      invariant k < |chain| - 1 ==> g.nodes[chain[k]].parent == Some(chain[k + 1])
      decreases g.depth[location]
    {
      if test(location) {
        assert test(chain[k]);
        return Some(location);
      }
      if g.nodes[location].parent.None? {
        return None;
      }
      location := g.nodes[location].parent.value;
      k := k + 1;
    }
  }

  /** `loc.__name__ or ''`. */
  function NameOrEmpty(n: Node): string
  {
    match n.name
    case None => ""
    case Some(s) => s
  }

  /** The names along the lineage in root-to-model order: the lineage's
      names reversed. */
  function PathNames(g: Graph, m: NodeId): (r: seq<string>)
    requires g.Valid() && m in g.nodes
    ensures |r| == |Lineage(g, m)|
    ensures forall k :: 0 <= k < |r| ==> r[k] == NameOrEmpty(g.nodes[Lineage(g, m)[|r| - 1 - k]])
    decreases g.depth[m]
  {
    match g.nodes[m].parent
    case None => [NameOrEmpty(g.nodes[m])]
    case Some(p) => PathNames(g, p) + [NameOrEmpty(g.nodes[m])]
  }

  /** `model_path_tuple(model, *elements)`, the tuple `_model_path_list`
      builds: one name per lineage object, starting with the root's and
      ending with the model's own, then the elements. */
  function ModelPathTuple(g: Graph, m: NodeId, elements: seq<string>): (r: seq<string>)
    requires g.Valid() && m in g.nodes
    ensures |r| == |Lineage(g, m)| + |elements|
    ensures r[0] == NameOrEmpty(g.nodes[Root(g, m)])
    ensures r[|Lineage(g, m)| - 1] == NameOrEmpty(g.nodes[m])
    ensures r[|Lineage(g, m)|..] == elements
  {
    PathNames(g, m) + elements
  }

  function Reversed<T>(s: seq<T>): (r: seq<T>)
    ensures |r| == |s|
    ensures forall k :: 0 <= k < |s| ==> r[k] == s[|s| - 1 - k]
    decreases |s|
  {
    if |s| == 0 then [] else Reversed(s[1..]) + [s[0]]
  }

  /** `_model_path_list(model, *elements)`: collects the names along the
      lineage, reverses the list in place and extends it with `elements`.
      The result has one entry per lineage object, root first, then the
      elements. */
  method ModelPathList(g: Graph, model: NodeId, elements: seq<string>) returns (path: seq<string>)
    requires g.Valid() && model in g.nodes
    ensures path == ModelPathTuple(g, model, elements)
    ensures |path| == |Lineage(g, model)| + |elements|
    ensures path[0] == NameOrEmpty(g.nodes[Root(g, model)])
    ensures path[|Lineage(g, model)| - 1] == NameOrEmpty(g.nodes[model])
  {
    ghost var chain := Lineage(g, model);
    var names: seq<string> := [];
    var location := model;
    while true
      invariant location in g.nodes
      invariant |names| < |chain| && chain[|names|] == location
      invariant |names| < |chain| - 1 ==> g.nodes[chain[|names|]].parent == Some(chain[|names| + 1])
      invariant forall j :: 0 <= j < |names| ==> names[j] == NameOrEmpty(g.nodes[chain[j]])
      decreases g.depth[location]
    {
      names := names + [NameOrEmpty(g.nodes[location])];
      if g.nodes[location].parent.None? {
        break;
      }
      location := g.nodes[location].parent.value;
    }
    assert |names| == |chain|;
    path := Reversed(names);
    ReversedNames(g, model, names);
    path := path + elements;
  }

  /** The names collected child first, reversed, are the names root
      first. */
  lemma ReversedNames(g: Graph, model: NodeId, names: seq<string>)
    requires g.Valid() && model in g.nodes
    requires |names| == |Lineage(g, model)|
    requires forall j :: 0 <= j < |names| ==> names[j] == NameOrEmpty(g.nodes[Lineage(g, model)[j]])
    ensures Reversed(names) == PathNames(g, model)
  {
    var chain := Lineage(g, model);
    var r := Reversed(names);
    var t := PathNames(g, model);
    forall k | 0 <= k < |t|
      ensures r[k] == t[k]
    {
      var j := |names| - 1 - k;
      assert r[k] == names[j];
      assert t[k] == NameOrEmpty(g.nodes[chain[j]]);
    }
  }

  /** `model_path(model, *elements)`: the joined, quoted path tuple.  It
      is never empty, and starts with `/` whenever the root is named
      `None` or `''`. */
  function ModelPath(g: Graph, m: NodeId, elements: seq<string>): (r: seq<byte>)
    requires g.Valid() && m in g.nodes
    ensures |r| > 0
    ensures g.nodes[Root(g, m)].name in {None, Some("")} ==> r[0] == SLASH
  {
    var t := ModelPathTuple(g, m, elements);
    if t[0] == "" then
      JoinedStartsWithSlash(t);
      JoinedPath(t)
    else
      JoinedPath(t)
  }

  /** The child of `n` called `segment`, when `n` has a `__getitem__` and
      that key. */
  function Lookup(g: Graph, n: NodeId, segment: string): (r: Option<NodeId>)
    requires g.Valid() && n in g.nodes
    ensures r.Some? ==> r.value in g.nodes
  {
    match g.nodes[n].children
    case None => None
    case Some(c) => if segment in c then Some(c[segment]) else None
  }

  /** The object reached from `start` by looking up each segment in turn,
      or `None` when some lookup fails. */
  function Descend(g: Graph, start: NodeId, segments: seq<string>): (r: Option<NodeId>)
    requires g.Valid() && start in g.nodes
    ensures r.Some? ==> r.value in g.nodes
    decreases |segments|
  {
    if |segments| == 0 then Some(start)
    else match Lookup(g, start, segments[0])
      case None => None
      case Some(child) => Descend(g, child, segments[1..])
  }

  /** Descending along `a + [x]` is descending along `a`, then one lookup. */
  lemma {:induction false} DescendAppend(g: Graph, start: NodeId, a: seq<string>, x: string)
    requires g.Valid() && start in g.nodes
    ensures Descend(g, start, a + [x]) ==
              match Descend(g, start, a)
              case None => None
              case Some(n) => Lookup(g, n, x)
    decreases |a|
  {
    if |a| == 0 {
      assert [] + [x] == [x];
    } else {
      assert (a + [x])[0] == a[0] && (a + [x])[1..] == a[1..] + [x];
      match Lookup(g, start, a[0])
      case None =>
      case Some(child) => DescendAppend(g, child, a[1..], x);
    }
  }

  /** Every lookup on a successful descent succeeds, so every prefix of
      the segments can be descended too. */
  lemma {:induction false} DescendPrefix(g: Graph, start: NodeId, segments: seq<string>, k: nat)
    requires g.Valid() && start in g.nodes
    requires k <= |segments| && Descend(g, start, segments).Some?
    ensures Descend(g, start, segments[..k]).Some?
    decreases |segments|
  {
    if k > 0 {
      var child := Lookup(g, start, segments[0]).value;
      DescendPrefix(g, child, segments[1..], k - 1);
      assert segments[..k][1..] == segments[1..][..k - 1];
    }
  }

  /** The consistency every object of a location-aware graph keeps: a
      root is named `None` or `''`; any other object has a clean name that
      is not a view marker, and its parent's `__getitem__` maps that name
      back to it. */
  ghost predicate LocationAware(g: Graph)
  {
    g.Valid() &&
    forall id :: id in g.nodes ==>
      match g.nodes[id].parent
      case None => g.nodes[id].name in {None, Some("")}
      case Some(p) =>
        g.nodes[id].name.Some? && IsClean(g.nodes[id].name.value) && !IsViewMarker(g.nodes[id].name.value) &&
        Lookup(g, p, g.nodes[id].name.value) == Some(id)
  }

  /** In a location-aware graph the path tuple of `m` is `''` followed by
      clean names that are not view markers, and descending along those
      names from the root reaches `m` again. */
  lemma {:induction false} PathNamesLeadBack(g: Graph, m: NodeId)
    requires LocationAware(g) && m in g.nodes
    ensures PathNames(g, m)[0] == ""
    ensures forall k :: 1 <= k < |PathNames(g, m)| ==>
              IsClean(PathNames(g, m)[k]) && !IsViewMarker(PathNames(g, m)[k])
    ensures Descend(g, Root(g, m), PathNames(g, m)[1..]) == Some(m)
    decreases g.depth[m]
  {
    match g.nodes[m].parent
    case None =>
      assert Lineage(g, m) == [m];
    case Some(p) =>
      PathNamesLeadBack(g, p);
      LeadBackStep(g, m, p, g.nodes[m].name.value);
  }

  /** The step of `PathNamesLeadBack`: what holds for the parent holds
      for a child whose clean name the parent maps back to it. */
  lemma LeadBackStep(g: Graph, m: NodeId, p: NodeId, x: string)
    requires g.Valid() && m in g.nodes && p in g.nodes
    requires g.nodes[m].parent == Some(p) && g.nodes[m].name == Some(x)
    requires IsClean(x) && !IsViewMarker(x) && Lookup(g, p, x) == Some(m)
    requires PathNames(g, p)[0] == ""
    requires forall k :: 1 <= k < |PathNames(g, p)| ==> IsClean(PathNames(g, p)[k]) && !IsViewMarker(PathNames(g, p)[k])
    requires Descend(g, Root(g, p), PathNames(g, p)[1..]) == Some(p)
    ensures PathNames(g, m)[0] == ""
    ensures forall k :: 1 <= k < |PathNames(g, m)| ==>
              IsClean(PathNames(g, m)[k]) && !IsViewMarker(PathNames(g, m)[k])
    ensures Descend(g, Root(g, m), PathNames(g, m)[1..]) == Some(m)
  {
    var names := PathNames(g, p);
    var all := PathNames(g, m);
    assert all == names + [x];
    forall k | 1 <= k < |all|
      ensures IsClean(all[k]) && !IsViewMarker(all[k])
    {
      if k < |names| {
        assert all[k] == names[k];
      }
    }
    RootOfChild(g, m, p);
    TailOfSnoc(names, x);
    DescendAppend(g, Root(g, p), names[1..], x);
  }

  lemma TailOfSnoc<T>(s: seq<T>, x: T)
    requires |s| > 0
    ensures (s + [x])[1..] == s[1..] + [x]
  {
  }

  /** A child has its parent's root. */
  lemma RootOfChild(g: Graph, m: NodeId, p: NodeId)
    requires g.Valid() && m in g.nodes && g.nodes[m].parent == Some(p)
    ensures Root(g, m) == Root(g, p)
  {
    assert Lineage(g, m) == [m] + Lineage(g, p);
  }

  /** In a location-aware graph `model_path_tuple(m)` is `''` followed by
      clean names, none a view marker, that lead from the root to `m`. */
  lemma ModelPathNames(g: Graph, m: NodeId) returns (names: seq<string>)
    requires LocationAware(g) && m in g.nodes
    ensures ModelPathTuple(g, m, []) == [""] + names
    ensures forall k :: 0 <= k < |names| ==> IsClean(names[k]) && !IsViewMarker(names[k])
    ensures Descend(g, Root(g, m), names) == Some(m)
  {
    PathNamesLeadBack(g, m);
    var all := PathNames(g, m);
    names := all[1..];
    forall k | 0 <= k < |names|
      ensures IsClean(names[k]) && !IsViewMarker(names[k])
    {
      assert names[k] == all[k + 1];
    }
    TupleAfterRootName(g, m, names);
  }

  lemma TupleAfterRootName(g: Graph, m: NodeId, names: seq<string>)
    requires g.Valid() && m in g.nodes
    requires PathNames(g, m)[0] == "" && names == PathNames(g, m)[1..]
    ensures ModelPathTuple(g, m, []) == [""] + names
  {
    assert PathNames(g, m) == [""] + names;
  }

}
