/** `TraversalContextURL` from repoze/bfg/traversal.py: the URL of a
    context found by traversal, and the virtual root of a request (which
    `virtual_root(model, request)` returns through the default adapter). */
module ContextUrls {
  import opened Wrappers
  import opened ByteStrings
  import opened PathSegments
  import opened Location
  import opened Traversal
  import opened Locators

  /** What `TraversalContextURL` reads from the request: the WSGI
      environment, `application_url` (an opaque prefix that never ends in
      a slash) and `request.root` when the request has one. */
  datatype Request = Request(env: Environ, applicationUrl: seq<byte>, root: Option<NodeId>)

  /** `model_path(context)` with a `/` appended unless it is `/` itself:
      the model path, ending in a slash. */
  function SlashedPath(g: Graph, context: NodeId): (r: seq<byte>)
    requires g.Valid() && context in g.nodes
    ensures |r| > 0 && r[|r| - 1] == SLASH
    ensures r == ModelPath(g, context, []) || r == ModelPath(g, context, []) + [SLASH]
  {
    var path := ModelPath(g, context, []);
    if path != [SLASH] then path + [SLASH] else path
  }

  /** `TraversalContextURL(context, request)()`: the application URL
      followed by the slashed model path, from which the virtual-root path
      has been cut when the path starts with it.  The part after the
      application URL is empty or ends in a slash; putting the virtual-root
      path back in front of it gives the slashed model path again. */
  function ContextUrl(g: Graph, context: NodeId, request: Request): (r: seq<byte>)
    requires g.Valid() && context in g.nodes
    ensures |r| >= |request.applicationUrl| && r[..|request.applicationUrl|] == request.applicationUrl
    ensures var tail := r[|request.applicationUrl|..];
            (tail == [] || tail[|tail| - 1] == SLASH) &&
            (match request.env.vhRoot
             case None => tail == SlashedPath(g, context)
             case Some(v) =>
               if StartsWith(SlashedPath(g, context), v) then v + tail == SlashedPath(g, context)
               else tail == SlashedPath(g, context))
  {
    var path := SlashedPath(g, context);
    var trimmed := match request.env.vhRoot
      case Some(v) => if StartsWith(path, v) then path[|v|..] else path
      case None => path;
    request.applicationUrl + trimmed
  }

  /** A URL generated for `context`, requested again with the same
      virtual-root key, leads the traverser (rooted at the physical root)
      back to `context` with an empty view name: the traverser puts the
      virtual-root path back in front of the path, which gives the model
      path of `context` again.  This holds when there is no virtual-root
      key, and when the key is a prefix of the slashed model path that
      itself decodes. */
  lemma ContextUrlTraversesBack(g: Graph, context: NodeId, request: Request)
    requires LocationAware(g) && context in g.nodes
    requires request.env.vhRoot.Some? ==>
               StartsWith(SlashedPath(g, context), request.env.vhRoot.value) &&
               DecodedPath(request.env.vhRoot.value).Ok?
    ensures var tail := ContextUrl(g, context, request)[|request.applicationUrl|..];
            var d := TraverserCall(g, Root(g, context), Environ(None, Some(tail), request.env.vhRoot));
            d.Ok? && d.value.context == context && d.value.viewName == ""
  {
    var root := Root(g, context);
    var tail := ContextUrl(g, context, request)[|request.applicationUrl|..];
    var env := Environ(None, Some(tail), request.env.vhRoot);
    var path, vrootPath, vpath := RequestedAgain(g, context, request);
    var names := SlashedPathDecodes(g, context);
    var w := Walker(root, names, |vrootPath| - 1, vrootPath, []);
    WalkNames(g, w);
    CallWalks(g, root, env, path, [], vrootPath, vpath, names);
  }

  /** In a location-aware graph the slashed model path decodes to clean
      names, none a view marker, that lead from the root to `context`. */
  lemma SlashedPathDecodes(g: Graph, context: NodeId) returns (names: seq<string>)
    requires LocationAware(g) && context in g.nodes
    ensures forall k :: 0 <= k < |names| ==> IsClean(names[k]) && !IsViewMarker(names[k])
    ensures Descend(g, Root(g, context), names) == Some(context)
    ensures DecodedPath(SlashedPath(g, context)) == Ok(names)
  {
    names := ModelPathNames(g, context);
    var path := ModelPath(g, context, []);
    assert path == JoinedPath([""] + names);
    AbsoluteRoundTrip(names);
    DecodedPathTrailingSlash(path);
    assert DecodedPath(path) == Ok(names);
  }

  /** What the traverser makes of the URL path requested again with the
      same virtual-root key: the virtual path it walks decodes as the
      slashed model path does. */
  lemma RequestedAgain(g: Graph, context: NodeId, request: Request)
    returns (path: seq<byte>, vrootPath: seq<string>, vpath: seq<byte>)
    requires g.Valid() && context in g.nodes
    requires request.env.vhRoot.Some? ==>
               StartsWith(SlashedPath(g, context), request.env.vhRoot.value) &&
               DecodedPath(request.env.vhRoot.value).Ok?
    ensures var tail := ContextUrl(g, context, request)[|request.applicationUrl|..];
            var env := Environ(None, Some(tail), request.env.vhRoot);
            RequestPath(env) == Ok((path, [])) && VirtualPath(env, path) == Ok((vrootPath, vpath)) &&
            DecodedPath(vpath) == DecodedPath(SlashedPath(g, context))
  {
    var sp := SlashedPath(g, context);
    var tail := ContextUrl(g, context, request)[|request.applicationUrl|..];
    path := if tail == [] then [SLASH] else tail;
    match request.env.vhRoot {
      case None =>
        vrootPath, vpath := [], path;
      case Some(v) =>
        vrootPath, vpath := DecodedPath(v).value, v + path;
        if tail == [] {
          assert v == sp;
          DecodedPathTrailingSlash(sp);
        }
    }
  }

  /** `virtual_root()`: the object the virtual-root path leads to from the
      context (`find_model`) when the key is set, else `request.root`, else
      the context's physical root. */
  function VirtualRoot(g: Graph, context: NodeId, request: Request): (r: Result<NodeId, Fault>)
    requires g.Valid() && context in g.nodes
    ensures request.env.vhRoot.None? ==> r.Ok?
    ensures r.Ok? ==> r.value in g.nodes || request.root == Some(r.value)
    ensures request.env.vhRoot.None? && request.root.None? ==> r.Ok? && g.nodes[r.value].parent.None?
  {
    match request.env.vhRoot
    case Some(v) => FindModel(g, context, Str(v))
    case None =>
      match request.root
      case Some(r) => Ok(r)
      case None => Ok(Root(g, context))
  }

  /** A virtual-root key holding the model path of an object of the same
      location-aware graph makes that object the virtual root; without the
      key and without `request.root`, the virtual root is the parentless
      end of the context's lineage. */
  lemma VirtualRootFound(g: Graph, context: NodeId, request: Request, vroot: NodeId)
    requires LocationAware(g) && context in g.nodes && vroot in g.nodes
    requires Root(g, vroot) == Root(g, context)
    ensures request.env.vhRoot == Some(ModelPath(g, vroot, [])) ==> VirtualRoot(g, context, request) == Ok(vroot)
    ensures request.env.vhRoot.None? && request.root.None? ==>
              VirtualRoot(g, context, request).Ok? &&
              VirtualRoot(g, context, request).value in Lineage(g, context) &&
              g.nodes[VirtualRoot(g, context, request).value].parent.None?
  {
    FindModelInverse(g, context, vroot);
  }
}
