/** The graph traverser of repoze/bfg/traversal.py
    (`ModelGraphTraverser.__call__`) and the locator functions built on it
    (`traverse`, `find_model`), with `DefaultRootFactory`. */
module Traversal {
  import opened Wrappers
  import opened ByteStrings
  import opened PathSegments
  import opened Location

  /** A path argument: a byte string, or a tuple or list of text segments
      (a value with `__iter__`). */
  datatype PathArg = Str(s: seq<byte>) | Segments(t: seq<string>)

  /** The `traverse` and `subpath` keys of `bfg.routes.matchdict`. */
  datatype MatchDict = MatchDict(traverse: Option<PathArg>, subpath: Option<PathArg>)

  /** The keys of the WSGI environment the traverser reads:
      `bfg.routes.matchdict`, `PATH_INFO` and the virtual-root key
      `HTTP_X_VHM_ROOT`. */
  datatype Environ = Environ(matchdict: Option<MatchDict>, pathInfo: Option<seq<byte>>, vhRoot: Option<seq<byte>>)

  /** The seven-key dictionary the traverser returns. */
  datatype TraversalResult = TraversalResult(
    context: NodeId,
    viewName: string,
    subpath: seq<string>,
    traversed: seq<string>,
    virtualRoot: NodeId,
    virtualRootPath: seq<string>,
    root: NodeId)

  function Min(a: int, b: int): int
  {
    if a <= b then a else b
  }

  /** The path to walk and the subpath to report: from the route match
      when there is one, else from `PATH_INFO` (`'/'` when missing or
      empty).  A string subpath from the route is decoded and can fail. */
  function RequestPath(env: Environ): Result<(seq<byte>, seq<string>), Fault>
  {
    match env.matchdict
    case Some(md) =>
      var path := match md.traverse
        case None => [SLASH]
        case Some(Str(s)) => s
        case Some(Segments(t)) => JoinedPath(t);
      (match md.subpath
       case None => Ok((path, []))
       case Some(Segments(t)) => Ok((path, t))
       case Some(Str(s)) =>
         match DecodedPath(s)
         case Err(e) => Err(e)
         case Ok(t) => Ok((path, t)))
    case None =>
      var path := match env.pathInfo
        case None => [SLASH]
        case Some(p) => if p == [] then [SLASH] else p;
      Ok((path, []))
  }

  /** What stays fixed during one walk: the root, the decoded virtual path
      `vpath_tuple`, `vroot_idx`, `vroot_tuple` and the subpath reported
      when the walk completes. */
  datatype Walker = Walker(root: NodeId, vpath: seq<string>, vrootIdx: int, vrootPath: seq<string>, subpath: seq<string>)

  /** The result returned when the walk stops at index `i` with `ob`
      reached: the subpath is what follows `i`, and `traversed` is the
      slice `vpath_tuple[:vroot_idx+i+1]`, clamped as Python clamps. */
  function Stopped(w: Walker, i: nat, ob: NodeId, vroot: NodeId, viewName: string): TraversalResult
    requires i < |w.vpath| && w.vrootIdx >= -1
  {
    TraversalResult(ob, viewName, w.vpath[i + 1..], w.vpath[..Min(w.vrootIdx + i + 1, |w.vpath|)], vroot, w.vrootPath, w.root)
  }

  /** The loop of `__call__` from index `i` on, with `ob` the object
      reached and `vroot` the virtual root found so far. */
  function Walk(g: Graph, w: Walker, i: nat, ob: NodeId, vroot: NodeId): TraversalResult
    requires g.Valid() && ob in g.nodes && i <= |w.vpath| && w.vrootIdx >= -1
    decreases |w.vpath| - i
  {
    if i == |w.vpath| then TraversalResult(ob, "", w.subpath, w.vpath, vroot, w.vrootPath, w.root)
    else
      var segment := w.vpath[i];
      if IsViewMarker(segment) then Stopped(w, i, ob, vroot, segment[2..])
      else if g.nodes[ob].children.None? then Stopped(w, i, ob, vroot, segment)
      else if segment !in g.nodes[ob].children.value then Stopped(w, i, ob, vroot, segment)
      else
        var next := g.nodes[ob].children.value[segment];
        Walk(g, w, i + 1, next, if i == w.vrootIdx then next else vroot)
  }

  /** `k` is where a walk from `root` along `vt` ends: every segment
      before `k` is an ordinary name whose lookup succeeds, and at `k`
      (when `k` is not past the end) the segment is a view marker or the
      object reached cannot look it up. */
  ghost predicate IsFirstStop(g: Graph, root: NodeId, vt: seq<string>, k: nat)
    requires g.Valid() && root in g.nodes
  {
    k <= |vt| &&
    (forall j :: 0 <= j < k ==> !IsViewMarker(vt[j])) &&
    Descend(g, root, vt[..k]).Some? &&
    (k < |vt| ==> IsViewMarker(vt[k]) || Lookup(g, Descend(g, root, vt[..k]).value, vt[k]).None?)
  }

  /** The traverser's result described without the loop, given where the
      walk ends: the context is the object reached by descending along the
      first `k` segments; the virtual root is the object reached along the
      first `vroot_idx + 1` segments when the walk got that far, else the
      root. */
  ghost function Outcome(g: Graph, w: Walker, k: nat): TraversalResult
    requires g.Valid() && w.root in g.nodes && w.vrootIdx >= -1
    requires IsFirstStop(g, w.root, w.vpath, k)
  {
    var context := Descend(g, w.root, w.vpath[..k]).value;
    var vroot :=
      if 0 <= w.vrootIdx < k then
        DescendPrefix(g, w.root, w.vpath[..k], w.vrootIdx + 1);
        assert w.vpath[..k][..w.vrootIdx + 1] == w.vpath[..w.vrootIdx + 1];
        Descend(g, w.root, w.vpath[..w.vrootIdx + 1]).value
      else w.root;
    if k == |w.vpath| then
      TraversalResult(context, "", w.subpath, w.vpath, vroot, w.vrootPath, w.root)
    else
      var viewName := if IsViewMarker(w.vpath[k]) then w.vpath[k][2..] else w.vpath[k];
      TraversalResult(context, viewName, w.vpath[k + 1..], w.vpath[..Min(w.vrootIdx + k + 1, |w.vpath|)], vroot, w.vrootPath, w.root)
  }

  /** The virtual root `Outcome` reports, as a descent from the root. */
  lemma OutcomeVirtualRoot(g: Graph, w: Walker, k: nat)
    requires g.Valid() && w.root in g.nodes && w.vrootIdx >= -1
    requires IsFirstStop(g, w.root, w.vpath, k)
    ensures 0 <= w.vrootIdx < k ==> Descend(g, w.root, w.vpath[..w.vrootIdx + 1]) == Some(Outcome(g, w, k).virtualRoot)
    ensures !(0 <= w.vrootIdx < k) ==> Outcome(g, w, k).virtualRoot == w.root
  {
    if 0 <= w.vrootIdx < k {
      DescendPrefix(g, w.root, w.vpath[..k], w.vrootIdx + 1);
      assert w.vpath[..k][..w.vrootIdx + 1] == w.vpath[..w.vrootIdx + 1];
    }
  }

  /** At most one index is where a walk ends. */
  lemma FirstStopUnique(g: Graph, root: NodeId, vt: seq<string>, k1: nat, k2: nat)
    requires g.Valid() && root in g.nodes
    requires IsFirstStop(g, root, vt, k1) && IsFirstStop(g, root, vt, k2)
    ensures k1 == k2
  {
    if k1 != k2 {
      var a, b := if k1 < k2 then k1 else k2, if k1 < k2 then k2 else k1;
      DescendPrefix(g, root, vt[..b], a + 1);
      assert vt[..b][..a + 1] == vt[..a] + [vt[a]];
      DescendAppend(g, root, vt[..a], vt[a]);
    }
  }

  /** The walk from index `i`, entered with the object and virtual root the
      first `i` lookups produce, ends at the first stop and yields
      `Outcome` there. */
  lemma {:induction false} WalkFrom(g: Graph, w: Walker, i: nat, ob: NodeId, vroot: NodeId) returns (k: nat)
    requires g.Valid() && w.root in g.nodes && i <= |w.vpath| && w.vrootIdx >= -1
    requires ob in g.nodes && Descend(g, w.root, w.vpath[..i]) == Some(ob)
    requires forall j :: 0 <= j < i ==> !IsViewMarker(w.vpath[j])
    requires if 0 <= w.vrootIdx < i then Descend(g, w.root, w.vpath[..w.vrootIdx + 1]) == Some(vroot) else vroot == w.root
    ensures i <= k && IsFirstStop(g, w.root, w.vpath, k)
    ensures Walk(g, w, i, ob, vroot) == Outcome(g, w, k)
    decreases |w.vpath| - i
  {
    if i == |w.vpath| {
      assert w.vpath[..i] == w.vpath;
      return i;
    }
    var segment := w.vpath[i];
    if IsViewMarker(segment) || Lookup(g, ob, segment).None? {
      return i;
    }
    var next := Lookup(g, ob, segment).value;
    assert w.vpath[..i + 1] == w.vpath[..i] + [segment];
    DescendAppend(g, w.root, w.vpath[..i], segment);
    k := WalkFrom(g, w, i + 1, next, if i == w.vrootIdx then next else vroot);
  }

  /** What `__call__`'s loop returns, for every graph and every decoded
      path: the walk ends at the unique first stop `k`, and the result is
      the one `Outcome` describes there.  In particular `context` is the
      last object reached, a stop at `k` reports `subpath` as the segments
      after `k` and `traversed` as `vpath_tuple[:vroot_idx+k+1]`, and a
      complete walk reports the whole tuple as traversed, an empty view
      name and the route's subpath. */
  lemma WalkOutcome(g: Graph, w: Walker) returns (k: nat)
    requires g.Valid() && w.root in g.nodes && w.vrootIdx >= -1
    ensures IsFirstStop(g, w.root, w.vpath, k)
    ensures Walk(g, w, 0, w.root, w.root) == Outcome(g, w, k)
  {
    assert w.vpath[..0] == [];
    k := WalkFrom(g, w, 0, w.root, w.root);
  }

  /** The virtual root tuple, the virtual path and `vroot_idx`: with the
      virtual-root key set, its value is decoded and prefixed to the path. */
  function VirtualPath(env: Environ, path: seq<byte>): Result<(seq<string>, seq<byte>), Fault>
  {
    match env.vhRoot
    case None => Ok(([], path))
    case Some(v) =>
      match DecodedPath(v)
      case Err(e) => Err(e)
      case Ok(t) => Ok((t, v + path))
  }

  /** What `ModelGraphTraverser(root)(request)` returns or raises. */
  function TraverserCall(g: Graph, root: NodeId, env: Environ): Result<TraversalResult, Fault>
    requires g.Valid() && root in g.nodes
  {
    match RequestPath(env)
    case Err(e) => Err(e)
    case Ok(chosen) =>
      match VirtualPath(env, chosen.0)
      case Err(e) => Err(e)
      case Ok(prefixed) => WalkPath(g, root, prefixed.1, prefixed.0, chosen.1)
  }

  /** The rest of `__call__` once the virtual path is known: `'/'` and `''`
      give the root at once; anything else is decoded and walked. */
  function WalkPath(g: Graph, root: NodeId, vpath: seq<byte>, vrootPath: seq<string>, subpath: seq<string>): Result<TraversalResult, Fault>
    requires g.Valid() && root in g.nodes
  {
    if vpath == [SLASH] || vpath == [] then
      Ok(TraversalResult(root, "", subpath, [], root, vrootPath, root))
    else
      match DecodedPath(vpath)
      case Err(e) => Err(e)
      case Ok(vt) => Ok(Walk(g, Walker(root, vt, |vrootPath| - 1, vrootPath, subpath), 0, root, root))
  }

  lemma CallUnfolds(g: Graph, root: NodeId, env: Environ, path: seq<byte>, subpath: seq<string>,
                    vrootPath: seq<string>, vpath: seq<byte>)
    requires g.Valid() && root in g.nodes
    requires RequestPath(env) == Ok((path, subpath)) && VirtualPath(env, path) == Ok((vrootPath, vpath))
    ensures TraverserCall(g, root, env) == WalkPath(g, root, vpath, vrootPath, subpath)
  {
  }

  lemma WalkPathUnfolds(g: Graph, root: NodeId, vpath: seq<byte>, vt: seq<string>, vrootPath: seq<string>, subpath: seq<string>)
    requires g.Valid() && root in g.nodes
    requires vpath != [] && vpath != [SLASH] && DecodedPath(vpath) == Ok(vt)
    ensures WalkPath(g, root, vpath, vrootPath, subpath) ==
            Ok(Walk(g, Walker(root, vt, |vrootPath| - 1, vrootPath, subpath), 0, root, root))
  {
  }

  lemma PlainRequestUnfolds(g: Graph, root: NodeId, p: seq<byte>)
    requires g.Valid() && root in g.nodes
    requires p != [] && p != [SLASH]
    ensures TraverserCall(g, root, Environ(None, Some(p), None)) == WalkPath(g, root, p, [], [])
  {
    var env := Environ(None, Some(p), None);
    assert RequestPath(env) == Ok((p, []));
    assert VirtualPath(env, p) == Ok(([], p));
    CallUnfolds(g, root, env, p, [], [], p);
  }

  /** Once the path, the subpath, the virtual root tuple and a virtual
      path that decodes are known, the traverser's result is the walk along
      the decoded path; the early return for `''` and `/` agrees with the
      walk along the empty tuple those decode to. */
  lemma CallWalks(g: Graph, root: NodeId, env: Environ, path: seq<byte>, subpath: seq<string>,
                  vrootPath: seq<string>, vpath: seq<byte>, vt: seq<string>)
    requires g.Valid() && root in g.nodes
    requires RequestPath(env) == Ok((path, subpath)) && VirtualPath(env, path) == Ok((vrootPath, vpath))
    requires DecodedPath(vpath) == Ok(vt)
    ensures TraverserCall(g, root, env) == Ok(Walk(g, Walker(root, vt, |vrootPath| - 1, vrootPath, subpath), 0, root, root))
  {
    CallUnfolds(g, root, env, path, subpath, vrootPath, vpath);
    if vpath == [SLASH] || vpath == [] {
      DecodedPathTrailingSlash([]);
    } else {
      WalkPathUnfolds(g, root, vpath, vt, vrootPath, subpath);
    }
  }

  /** A request that matched no route and carries no virtual-root key,
      whose `PATH_INFO` decodes to `vt` (and is not `''` or `/`), is the
      walk along `vt` with no virtual root. */
  lemma PlainRequest(g: Graph, root: NodeId, vt: seq<string>, p: seq<byte>)
    requires g.Valid() && root in g.nodes
    requires p != [] && p != [SLASH] && DecodedPath(p) == Ok(vt)
    ensures TraverserCall(g, root, Environ(None, Some(p), None)) ==
            Ok(Walk(g, Walker(root, vt, -1, [], []), 0, root, root))
  {
    PlainRequestUnfolds(g, root, p);
    WalkPathUnfolds(g, root, p, vt, [], []);
  }

  /** A request that matched no route and carries no virtual-root key,
      whose `PATH_INFO` is missing, empty or `/`, gives the root as
      context with nothing traversed and an empty view name. */
  lemma TraverserAtRoot(g: Graph, root: NodeId, env: Environ)
    requires g.Valid() && root in g.nodes
    requires env.matchdict.None? && env.vhRoot.None? && env.pathInfo in {None, Some([]), Some([SLASH])}
    ensures TraverserCall(g, root, env) == Ok(TraversalResult(root, "", [], [], root, [], root))
  {
  }

  /** The context and the virtual root `__call__` reports are objects of
      the graph. */
  lemma TraverserStaysInGraph(g: Graph, root: NodeId, env: Environ)
    requires g.Valid() && root in g.nodes
    requires TraverserCall(g, root, env).Ok?
    ensures TraverserCall(g, root, env).value.context in g.nodes
    ensures TraverserCall(g, root, env).value.virtualRoot in g.nodes
  {
    var chosen := RequestPath(env).value;
    var prefixed := VirtualPath(env, chosen.0).value;
    var vpath := prefixed.1;
    CallUnfolds(g, root, env, chosen.0, chosen.1, prefixed.0, vpath);
    if vpath != [SLASH] && vpath != [] {
      var vt := DecodedPath(vpath).value;
      WalkPathUnfolds(g, root, vpath, vt, prefixed.0, chosen.1);
      var w := Walker(root, vt, |prefixed.0| - 1, prefixed.0, chosen.1);
      var k := WalkOutcome(g, w);
      if 0 <= w.vrootIdx < k {
        DescendPrefix(g, root, vt[..k], w.vrootIdx + 1);
        assert vt[..k][..w.vrootIdx + 1] == vt[..w.vrootIdx + 1];
      }
    }
  }

  /** Without the virtual-root key the virtual root is the root and the
      virtual root path is empty, whatever the walk does; `root` is
      always the traverser's root. */
  lemma TraverserWithoutVirtualRoot(g: Graph, root: NodeId, env: Environ)
    requires g.Valid() && root in g.nodes && env.vhRoot.None?
    ensures TraverserCall(g, root, env).Ok? ==>
              var d := TraverserCall(g, root, env).value;
              d.virtualRoot == root && d.virtualRootPath == [] && d.root == root
  {
    if RequestPath(env).Ok? {
      var chosen := RequestPath(env).value;
      CallUnfolds(g, root, env, chosen.0, chosen.1, [], chosen.0);
      var vpath := chosen.0;
      if vpath != [SLASH] && vpath != [] && DecodedPath(vpath).Ok? {
        var vt := DecodedPath(vpath).value;
        WalkPathUnfolds(g, root, vpath, vt, [], chosen.1);
        var k := WalkOutcome(g, Walker(root, vt, -1, [], chosen.1));
      }
    }
  }

  /** With the virtual-root key set, `virtual_root_path` is the decoded
      key, and `virtual_root` is either the root (the walk stopped before
      index `len(vroot_tuple) - 1`) or the object reached by descending
      along the first `len(vroot_tuple)` segments of the decoded virtual
      path. */
  lemma TraverserWithVirtualRoot(g: Graph, root: NodeId, env: Environ, path: seq<byte>, subpath: seq<string>, vrootPath: seq<string>)
    requires g.Valid() && root in g.nodes
    requires RequestPath(env) == Ok((path, subpath))
    requires env.vhRoot.Some? && DecodedPath(env.vhRoot.value) == Ok(vrootPath)
    requires TraverserCall(g, root, env).Ok?
    ensures var d := TraverserCall(g, root, env).value;
            var vpath := env.vhRoot.value + path;
            d.virtualRootPath == vrootPath && d.root == root &&
            (d.virtualRoot == root ||
             (DecodedPath(vpath).Ok? && 0 < |vrootPath| <= |DecodedPath(vpath).value| &&
              Descend(g, root, DecodedPath(vpath).value[..|vrootPath|]) == Some(d.virtualRoot)))
  {
    var vpath := env.vhRoot.value + path;
    CallUnfolds(g, root, env, path, subpath, vrootPath, vpath);
    if vpath != [SLASH] && vpath != [] {
      var vt := DecodedPath(vpath).value;
      var w := Walker(root, vt, |vrootPath| - 1, vrootPath, subpath);
      WalkPathUnfolds(g, root, vpath, vt, vrootPath, subpath);
      WalkVirtualRoot(g, w);
    }
  }

  /** The virtual root a walk reports is the root, or the object reached
      along the first `vroot_idx + 1` segments. */
  lemma WalkVirtualRoot(g: Graph, w: Walker)
    requires g.Valid() && w.root in g.nodes && w.vrootIdx >= -1
    ensures var d := Walk(g, w, 0, w.root, w.root);
            d.virtualRootPath == w.vrootPath && d.root == w.root &&
            (d.virtualRoot == w.root ||
             (0 <= w.vrootIdx < |w.vpath| && Descend(g, w.root, w.vpath[..w.vrootIdx + 1]) == Some(d.virtualRoot)))
  {
    var k := WalkOutcome(g, w);
    OutcomeVirtualRoot(g, w, k);
  }

  /** A route whose `*traverse` match is a tuple of clean names walks
      exactly those names, whatever `PATH_INFO` holds: the tuple is
      quoted, joined and decoded back.  The subpath is the route's
      `subpath` tuple, `()` when it is missing, and a string subpath is
      decoded (its failure is the traverser's). */
  lemma RouteSegments(g: Graph, root: NodeId, names: seq<string>, sp: Option<PathArg>, pathInfo: Option<seq<byte>>)
    requires g.Valid() && root in g.nodes
    requires forall k :: 0 <= k < |names| ==> IsClean(names[k])
    ensures var call := TraverserCall(g, root, Environ(Some(MatchDict(Some(Segments(names)), sp)), pathInfo, None));
            (sp.None? ==> call == Ok(Walk(g, Walker(root, names, -1, [], []), 0, root, root))) &&
            (sp.Some? && sp.value.Segments? ==> call == Ok(Walk(g, Walker(root, names, -1, [], sp.value.t), 0, root, root))) &&
            (sp.Some? && sp.value.Str? && DecodedPath(sp.value.s).Err? ==> call == Err(DecodedPath(sp.value.s).error)) &&
            (sp.Some? && sp.value.Str? && DecodedPath(sp.value.s).Ok? ==>
               call == Ok(Walk(g, Walker(root, names, -1, [], DecodedPath(sp.value.s).value), 0, root, root)))
  {
    var env := Environ(Some(MatchDict(Some(Segments(names)), sp)), pathInfo, None);
    var path := JoinedPath(names);
    assert DecodedPath(path) == Ok(names) by {
      JoinedDecodes(names);
    }
    if RequestPath(env).Ok? {
      var subpath := RequestPath(env).value.1;
      assert RequestPath(env) == Ok((path, subpath));
      CallWalks(g, root, env, path, subpath, [], path, names);
    }
  }

  /** The `*traverse` join of clean names decodes back to them; the empty
      tuple joins to `/`, which decodes to `()`. */
  lemma JoinedDecodes(names: seq<string>)
    requires forall k :: 0 <= k < |names| ==> IsClean(names[k])
    ensures DecodedPath(JoinedPath(names)) == Ok(names)
  {
    if names == [] {
      DecodedPathTrailingSlash([]);
    } else {
      forall k | 0 <= k < |names|
        ensures |QuoteAll(names)[k]| > 0
      {
        assert names[k] != "";
      }
      JoinKeepsEnds(QuoteAll(names));
      JoinedRoundTrip(names);
    }
  }

  /** With the virtual-root key set and a path that is empty or starts
      with `/` and decodes, the segments walked are the key's segments
      followed by the path's, and `virtual_root` is the object those key
      segments lead to from the root when none is a view marker and every
      lookup succeeds, and the root otherwise. */
  lemma VirtualRootIsKeyObject(g: Graph, root: NodeId, env: Environ, path: seq<byte>, subpath: seq<string>,
                               vrootPath: seq<string>, rest: seq<string>)
    requires g.Valid() && root in g.nodes
    requires RequestPath(env) == Ok((path, subpath)) && (path == [] || path[0] == SLASH)
    requires env.vhRoot.Some? && DecodedPath(env.vhRoot.value) == Ok(vrootPath)
    requires DecodedPath(path) == Ok(rest)
    ensures DecodedPath(env.vhRoot.value + path) == Ok(vrootPath + rest)
    ensures TraverserCall(g, root, env).Ok?
    ensures var d := TraverserCall(g, root, env).value;
            d.virtualRootPath == vrootPath &&
            d.virtualRoot == if (forall j :: 0 <= j < |vrootPath| ==> !IsViewMarker(vrootPath[j])) && Descend(g, root, vrootPath).Some?
                             then Descend(g, root, vrootPath).value else root
  {
    var vt := vrootPath + rest;
    KeyThenPath(env.vhRoot.value, path, vrootPath, rest);
    assert vt[..|vrootPath|] == vrootPath;
    KeyedCall(g, root, env, path, subpath, vrootPath, vt);
  }

  lemma KeyedCall(g: Graph, root: NodeId, env: Environ, path: seq<byte>, subpath: seq<string>,
                  vrootPath: seq<string>, vt: seq<string>)
    requires g.Valid() && root in g.nodes
    requires RequestPath(env) == Ok((path, subpath))
    requires env.vhRoot.Some? && DecodedPath(env.vhRoot.value) == Ok(vrootPath)
    requires DecodedPath(env.vhRoot.value + path) == Ok(vt)
    requires |vrootPath| <= |vt| && vt[..|vrootPath|] == vrootPath
    ensures TraverserCall(g, root, env).Ok?
    ensures var d := TraverserCall(g, root, env).value;
            d.virtualRootPath == vrootPath &&
            d.virtualRoot == if (forall j :: 0 <= j < |vrootPath| ==> !IsViewMarker(vrootPath[j])) && Descend(g, root, vrootPath).Some?
                             then Descend(g, root, vrootPath).value else root
  {
    CallWalks(g, root, env, path, subpath, vrootPath, env.vhRoot.value + path, vt);
    WalkKeyObject(g, Walker(root, vt, |vrootPath| - 1, vrootPath, subpath), vrootPath);
  }

  lemma KeyThenPath(v: seq<byte>, path: seq<byte>, vrootPath: seq<string>, rest: seq<string>)
    requires path == [] || path[0] == SLASH
    requires DecodedPath(v) == Ok(vrootPath) && DecodedPath(path) == Ok(rest)
    ensures DecodedPath(v + path) == Ok(vrootPath + rest)
  {
    DecodedPathConcat(v, path);
  }

  /** A walk whose first `vroot_idx + 1` segments are `key` reports as
      virtual root the object `key` leads to when the walk gets past it,
      and the root otherwise. */
  lemma WalkKeyObject(g: Graph, w: Walker, key: seq<string>)
    requires g.Valid() && w.root in g.nodes && w.vrootIdx == |key| - 1
    requires |key| <= |w.vpath| && w.vpath[..|key|] == key
    ensures var d := Walk(g, w, 0, w.root, w.root);
            d.virtualRootPath == w.vrootPath &&
            d.virtualRoot == if (forall j :: 0 <= j < |key| ==> !IsViewMarker(key[j])) && Descend(g, w.root, key).Some?
                             then Descend(g, w.root, key).value else w.root
  {
    var k := WalkOutcome(g, w);
    OutcomeVirtualRoot(g, w, k);
    KeyObjectReached(g, w, k);
  }

  /** The walk gets past `vroot_idx` exactly when the first
      `vroot_idx + 1` segments hold no view marker and can be descended. */
  lemma KeyObjectReached(g: Graph, w: Walker, k: nat)
    requires g.Valid() && w.root in g.nodes && w.vrootIdx >= -1 && w.vrootIdx < |w.vpath|
    requires IsFirstStop(g, w.root, w.vpath, k)
    ensures var key := w.vpath[..w.vrootIdx + 1];
            (w.vrootIdx < k) <==>
            ((forall j :: 0 <= j < |key| ==> !IsViewMarker(key[j])) && Descend(g, w.root, key).Some?)
  {
    var n := w.vrootIdx + 1;
    var key := w.vpath[..n];
    if w.vrootIdx < k {
      DescendPrefix(g, w.root, w.vpath[..k], n);
      assert w.vpath[..k][..n] == key;
    } else if (forall j :: 0 <= j < |key| ==> !IsViewMarker(key[j])) && Descend(g, w.root, key).Some? {
      DescendPrefix(g, w.root, key, k + 1);
      assert key[..k + 1] == w.vpath[..k] + [w.vpath[k]];
      assert key[k] == w.vpath[k];
      DescendAppend(g, w.root, w.vpath[..k], w.vpath[k]);
    }
  }

  /** The loop of `__call__`: walks the decoded segments from the root one
      lookup at a time, remembering the object reached at index `vroot_idx`
      as the virtual root, and returns as soon as a segment is a view
      marker, the object reached has no `__getitem__`, or the lookup
      fails. */
  method WalkSegments(g: Graph, root: NodeId, vt: seq<string>, vrootPath: seq<string>, subpath: seq<string>)
    returns (r: TraversalResult)
    requires g.Valid() && root in g.nodes
    ensures r == Walk(g, Walker(root, vt, |vrootPath| - 1, vrootPath, subpath), 0, root, root)
  {
    ghost var w := Walker(root, vt, |vrootPath| - 1, vrootPath, subpath);
    var vrootIdx := |vrootPath| - 1;
    var ob := root;
    var vroot := root;
    var i := 0;
    while i < |vt|
      invariant 0 <= i <= |vt| && ob in g.nodes
      invariant Walk(g, w, i, ob, vroot) == Walk(g, w, 0, root, root)
    {
      var segment := vt[i];
      if IsViewMarker(segment) {
        return TraversalResult(ob, segment[2..], vt[i + 1..], vt[..Min(vrootIdx + i + 1, |vt|)], vroot, vrootPath, root);
      }
      if g.nodes[ob].children.None? {
        return TraversalResult(ob, segment, vt[i + 1..], vt[..Min(vrootIdx + i + 1, |vt|)], vroot, vrootPath, root);
      }
      var children := g.nodes[ob].children.value;
      if segment !in children {
        return TraversalResult(ob, segment, vt[i + 1..], vt[..Min(vrootIdx + i + 1, |vt|)], vroot, vrootPath, root);
      }
      var next := children[segment];
      if i == vrootIdx {
        vroot := next;
      }
      ob := next;
      i := i + 1;
    }
    return TraversalResult(ob, "", subpath, vt, vroot, vrootPath, root);
  }

  /** `ModelGraphTraverser`: a traverser bound to a root object. */
  class ModelGraphTraverser {
    const root: NodeId

    constructor (root: NodeId)
      ensures this.root == root
    {
      this.root := root;
    }

    /** `__call__(request)`: chooses the path and the subpath (from the
        route match, else from `PATH_INFO`), prefixes the raw virtual-root
        path, and walks the decoded segments one lookup at a time,
        returning as soon as a segment is a view marker, the object reached
        has no `__getitem__`, or the lookup fails. */
    method Call(g: Graph, env: Environ) returns (r: Result<TraversalResult, Fault>)
      requires g.Valid() && root in g.nodes
      ensures r == TraverserCall(g, root, env)
    {
      var path: seq<byte>;
      var subpath: seq<string>;
      if env.matchdict.Some? {
        var md := env.matchdict.value;
        path := match md.traverse
          case None => [SLASH]
          case Some(Str(s)) => s
          case Some(Segments(t)) => JoinedPath(t);
        match md.subpath {
          case None =>
            subpath := [];
          case Some(Segments(t)) =>
            subpath := t;
          case Some(Str(s)) =>
            var decoded := TraversalPath(s);
            if decoded.Err? {
              return Err(decoded.error);
            }
            subpath := decoded.value;
        }
      } else {
        subpath := [];
        path := match env.pathInfo
          case None => [SLASH]
          case Some(p) => if p == [] then [SLASH] else p;
      }
      assert RequestPath(env) == Ok((path, subpath));

      var vrootPath: seq<string> := [];
      var vpath := path;
      if env.vhRoot.Some? {
        var decoded := TraversalPath(env.vhRoot.value);
        if decoded.Err? {
          return Err(decoded.error);
        }
        vrootPath, vpath := decoded.value, env.vhRoot.value + path;
      }
      CallUnfolds(g, root, env, path, subpath, vrootPath, vpath);

      if vpath == [SLASH] || vpath == [] {
        return Ok(TraversalResult(root, "", subpath, [], root, vrootPath, root));
      }
      var decoded := TraversalPath(vpath);
      if decoded.Err? {
        return Err(decoded.error);
      }
      var vt := decoded.value;
      WalkPathUnfolds(g, root, vpath, vt, vrootPath, subpath);
      var walked := WalkSegments(g, root, vt, vrootPath, subpath);
      return Ok(walked);
    }
  }
}
