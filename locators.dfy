/** `traverse`, `find_model` and `DefaultRootFactory` from
    repoze/bfg/traversal.py, with the inverse relation between
    `model_path`/`model_path_tuple` and `find_model`. */
module Locators {
  import opened Wrappers
  import opened ByteStrings
  import opened PathSegments
  import opened Location
  import opened Traversal

  /** The string `traverse` hands to the request: a string path as it is;
      a tuple path joined by `_join_path_tuple`, or `''` when it is
      empty. */
  function PathString(path: PathArg): seq<byte>
  {
    match path
    case Str(s) => s
    case Segments(t) => if t == [] then [] else JoinedPath(t)
  }

  /** Where `traverse` begins: the physical root for a path starting with
      `/`, the model itself otherwise; either way the model or one of its
      ancestors. */
  function TraversalStart(g: Graph, model: NodeId, p: seq<byte>): (r: NodeId)
    requires g.Valid() && model in g.nodes
    ensures r in g.nodes && r in Lineage(g, model)
  {
    if |p| > 0 && p[0] == SLASH then Root(g, model) else model
  }

  /** `traverse(model, path)` with the default `ModelGraphTraverser`: a
      blank request whose `PATH_INFO` is the path, with no route match and
      no virtual-root key.  The context it finds is an object of the graph;
      it reports as root the object it began at (the physical root for an
      absolute path, the model for a relative one), and that object is
      also the virtual root, reached along no segments. */
  function Traverse(g: Graph, model: NodeId, path: PathArg): (r: Result<TraversalResult, Fault>)
    requires g.Valid() && model in g.nodes
    ensures r.Ok? ==> r.value.context in g.nodes
    ensures var p := PathString(path);
            r.Ok? ==> r.value.root == (if |p| > 0 && p[0] == SLASH then Root(g, model) else model)
    ensures r.Ok? ==> r.value.virtualRoot == r.value.root && r.value.virtualRootPath == []
  {
    var p := PathString(path);
    var start := TraversalStart(g, model, p);
    var env := Environ(None, Some(p), None);
    TraverserWithoutVirtualRoot(g, start, env);
    if TraverserCall(g, start, env).Ok? then
      TraverserStaysInGraph(g, start, env);
      TraverserCall(g, start, env)
    else
      TraverserCall(g, start, env)
  }

  /** `find_model(model, path)`: the context `traverse` finds, an object
      of the graph, or a `KeyError` naming the segment left over as view
      name. */
  function FindModel(g: Graph, model: NodeId, path: PathArg): (r: Result<NodeId, Fault>)
    requires g.Valid() && model in g.nodes
    ensures r.Ok? ==> r.value in g.nodes
  {
    match Traverse(g, model, path)
    case Err(e) => Err(e)
    case Ok(d) => Resolved(d)
  }

  /** The context of a traversal that consumed the whole path, or a
      `KeyError` naming the view name it left. */
  function Resolved(d: TraversalResult): Result<NodeId, Fault>
  {
    if d.viewName != "" then Err(KeyError(d.viewName)) else Ok(d.context)
  }

  /** `find_model` along a path string (not `''` or `/`) that decodes to
      `vt` is the walk along `vt` from where `traverse` begins. */
  lemma FindModelWalks(g: Graph, model: NodeId, path: PathArg, vt: seq<string>)
    requires g.Valid() && model in g.nodes
    requires PathString(path) != [] && PathString(path) != [SLASH] && DecodedPath(PathString(path)) == Ok(vt)
    ensures var start := TraversalStart(g, model, PathString(path));
            FindModel(g, model, path) == Resolved(Walk(g, Walker(start, vt, -1, [], []), 0, start, start))
  {
    PlainRequest(g, TraversalStart(g, model, PathString(path)), vt, PathString(path));
  }

  /** An empty string or an empty tuple as path gives the model itself. */
  lemma TraverseEmpty(g: Graph, model: NodeId)
    requires g.Valid() && model in g.nodes
    ensures Traverse(g, model, Str([])) == Ok(TraversalResult(model, "", [], [], model, [], model))
    ensures Traverse(g, model, Segments([])) == Ok(TraversalResult(model, "", [], [], model, [], model))
    ensures FindModel(g, model, Str([])) == Ok(model) && FindModel(g, model, Segments([])) == Ok(model)
  {
    TraverserAtRoot(g, model, Environ(None, Some([]), None));
  }

  /** Walking names that are clean and are not view markers ends at the
      object descending along them reaches, with an empty view name, when
      every lookup succeeds, and leaves a non-empty view name otherwise;
      the virtual root index plays no part in either. */
  lemma WalkNames(g: Graph, w: Walker)
    requires g.Valid() && w.root in g.nodes && w.vrootIdx >= -1
    requires forall k :: 0 <= k < |w.vpath| ==> IsClean(w.vpath[k]) && !IsViewMarker(w.vpath[k])
    ensures var d := Walk(g, w, 0, w.root, w.root);
            (Descend(g, w.root, w.vpath).Some? ==> d.context == Descend(g, w.root, w.vpath).value && d.viewName == "") &&
            (Descend(g, w.root, w.vpath).None? ==> d.viewName != "")
  {
    var names := w.vpath;
    var k := WalkOutcome(g, w);
    if k == |names| {
      assert names[..k] == names;
    } else if Descend(g, w.root, names).Some? {
      DescendPrefix(g, w.root, names, k + 1);
      assert names[..k + 1] == names[..k] + [names[k]];
      DescendAppend(g, w.root, names[..k], names[k]);
    }
  }

  /** `find_model` resolves a relative path exactly when descending along
      its names from the model succeeds: it returns the object reached,
      and raises `KeyError` otherwise.  Both the quoted string form and
      the tuple form behave so. */
  lemma FindModelRelative(g: Graph, model: NodeId, names: seq<string>)
    requires g.Valid() && model in g.nodes && |names| > 0
    requires forall k :: 0 <= k < |names| ==> IsClean(names[k]) && !IsViewMarker(names[k])
    ensures Descend(g, model, names).Some? ==>
              FindModel(g, model, Str(Join(QuoteAll(names)))) == Ok(Descend(g, model, names).value) &&
              FindModel(g, model, Segments(names)) == Ok(Descend(g, model, names).value)
    ensures Descend(g, model, names).None? ==>
              FindModel(g, model, Str(Join(QuoteAll(names)))).Err? &&
              FindModel(g, model, Str(Join(QuoteAll(names)))).error.KeyError? &&
              FindModel(g, model, Segments(names)) == FindModel(g, model, Str(Join(QuoteAll(names))))
  {
    var p := Join(QuoteAll(names));
    RelativePathString(names);
    FindModelWalks(g, model, Str(p), names);
    FindModelWalks(g, model, Segments(names), names);
    WalkNames(g, Walker(model, names, -1, [], []));
  }

  /** The joined, quoted form of clean names is a relative path string
      that decodes back to the names, and is what a tuple of those names
      becomes in `traverse`. */
  lemma RelativePathString(names: seq<string>)
    requires |names| > 0
    requires forall k :: 0 <= k < |names| ==> IsClean(names[k])
    ensures var p := Join(QuoteAll(names));
            p != [] && p != [SLASH] && p[0] != SLASH && DecodedPath(p) == Ok(names) &&
            PathString(Segments(names)) == p && PathString(Str(p)) == p
  {
    var p := Join(QuoteAll(names));
    forall k | 0 <= k < |names|
      ensures SLASH !in QuoteAll(names)[k] && |QuoteAll(names)[k]| > 0
    {
      assert names[k] != "";
    }
    JoinKeepsEnds(QuoteAll(names));
    JoinedRoundTrip(names);
  }

  /** The documented inverse: for any two objects of one location-aware
      graph, `find_model(n, model_path(m))` and
      `find_model(n, model_path_tuple(m))` both return `m`. */
  lemma FindModelInverse(g: Graph, n: NodeId, m: NodeId)
    requires LocationAware(g) && n in g.nodes && m in g.nodes
    requires Root(g, n) == Root(g, m)
    ensures FindModel(g, n, Str(ModelPath(g, m, []))) == Ok(m)
    ensures FindModel(g, n, Segments(ModelPathTuple(g, m, []))) == Ok(m)
  {
    var names := ModelPathNames(g, m);
    var root := Root(g, m);
    var p := ModelPath(g, m, []);
    assert PathString(Segments(ModelPathTuple(g, m, []))) == p;
    JoinedAbsolute(names);
    assert TraversalStart(g, n, p) == root;
    if names == [] {
      TraverserAtRoot(g, root, Environ(None, Some(p), None));
    } else {
      AbsoluteRoundTrip(names);
      PlainRequest(g, root, names, p);
      WalkNames(g, Walker(root, names, -1, [], []));
    }
  }

  /** `DefaultRootFactory(request)`: an object whose `__parent__` and
      `__name__` are `None` and which has no `__getitem__`. */
  function DefaultRoot(): (n: Node)
    ensures n.parent.None? && n.name.None? && n.children.None?
  {
    Node(None, None, None)
  }

  /** A default root is its own root, its path is `/` and its path tuple
      is `('',)`; a traverser rooted at it stops at the first segment,
      always reporting the root as context and as virtual root. */
  lemma DefaultRootBehaviour(g: Graph, root: NodeId, env: Environ)
    requires g.Valid() && root in g.nodes && g.nodes[root] == DefaultRoot()
    ensures Root(g, root) == root
    ensures ModelPathTuple(g, root, []) == [""] && ModelPath(g, root, []) == [SLASH]
    ensures TraverserCall(g, root, env).Ok? ==>
              TraverserCall(g, root, env).value.context == root &&
              TraverserCall(g, root, env).value.virtualRoot == root
  {
    assert Lineage(g, root) == [root];
    assert QuoteAll([""]) == [[]];
    if RequestPath(env).Ok? && VirtualPath(env, RequestPath(env).value.0).Ok? {
      var chosen := RequestPath(env).value;
      var prefixed := VirtualPath(env, chosen.0).value;
      CallUnfolds(g, root, env, chosen.0, chosen.1, prefixed.0, prefixed.1);
      var vpath := prefixed.1;
      if vpath != [SLASH] && vpath != [] && DecodedPath(vpath).Ok? {
        var vt := DecodedPath(vpath).value;
        var w := Walker(root, vt, |prefixed.0| - 1, prefixed.0, chosen.1);
        WalkPathUnfolds(g, root, vpath, vt, prefixed.0, chosen.1);
        var k := WalkOutcome(g, w);
        assert vt[..0] == [];
        FirstStopUnique(g, root, vt, k, 0);
        OutcomeVirtualRoot(g, w, k);
      }
    }
  }
}
