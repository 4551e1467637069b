# Object-graph traversal of repoze.bfg, modelled in Dafny

This project models the traversal core of `repoze/bfg/traversal.py`, the
part of repoze.bfg that turns a request path into a *context* object of
an application's model graph, and that turns a model object back into a
path or a URL.

- **Path decoding.** `traversal_path` turns a `PATH_INFO`-style byte
  string into a tuple of text segments. It strips slashes at both ends,
  splits on `/` and URL-unquotes each piece. Empty and `.` pieces are
  skipped. `..` deletes the last kept segment, and fails with `IndexError`
  when nothing is kept. Every other piece is UTF-8-decoded, and a piece
  that does not decode fails with `TypeError`. The model gives this as a
  left fold (`Normalize`), and as the imperative loop of the source
  (`TraversalPath`), which is proved equal to it.
- **Path encoding.** `quote_path_segment` UTF-8-encodes and quotes a
  segment and keeps its result in the module-level `_segment_cache`
  table, modelled as the class `SegmentCache`. `_join_path_tuple` joins
  quoted segments with `/`. `_model_path_list`, `model_path_tuple` and
  `model_path` build an object's absolute path from its lineage.
- **Graph.** The model graph is a finite map from object ids to objects.
  Each object has a `__name__`, a `__parent__` and, when it has a
  `__getitem__`, a map of children. A ghost depth map makes every parent
  chain finite. The model's `LocationAware` graphs are stricter than the
  source's location-aware objects, which only need `__name__` and
  `__parent__`: a root is named `None` or `''`, every other object's
  name is not `''`, `.` or `..` and does not start with `@@`, and its
  parent's `__getitem__` finds it under that name. Without the name
  conditions the documented inverse of `model_path` fails (Findings).
- **Traverser.** `ModelGraphTraverser.__call__` chooses the path from
  the route match dictionary or from `PATH_INFO` and prepends the
  `HTTP_X_VHM_ROOT` virtual-root path. It then walks the decoded
  segments, stopping at the first `@@` view marker, at the first object
  without `__getitem__`, or at the first missing child. It returns the
  seven-key dictionary. The loop is an imperative method, proved equal to
  a recursive specification `Walk`. `Walk` is in turn characterised
  without recursion (`Outcome`) in terms of descending along a prefix of
  the segments.
- **Locator helpers.** `find_root` and `find_interface` are early-exit
  loops over the lineage. `traverse` is modelled with its default
  traverser, and `find_model` with its `KeyError`. `DefaultRootFactory`
  is modelled too.
- **Context URLs.** `TraversalContextURL.__call__` and `virtual_root` are
  included.
- **Findings.** Five places where the code does less than its
  documentation promises are stated as lemmas on small graphs (module
  `Findings`, table below).
- **Worked examples.** The examples in the source's docstrings, and a few
  more for the error paths, are stated as lemmas on concrete paths: the
  `traversal_path` examples, `_join_path_tuple`, and a three-object graph
  for the traverser, `find_model` and `find_root`.

`url_quote` (repoze/bfg/encode.py), `urllib.unquote` and the UTF-8 codec
are given concrete definitions, and their round trips are proved. They
are `UrlQuoting.UrlQuote`, `UrlQuoting.Unquote`, `Utf8.Encode` and
`Utf8.Decode`. repoze/bfg/encode.py and repoze/bfg/location.py are not
part of this model: the quoting rule (letters, digits, `_`, `.` and `-`
stay, everything else becomes `%XX`, including `/`) and `lineage` are
written from their documented behaviour.

The `traversed` value at a stop is the slice
`vpath_tuple[:vroot_idx+i+1]`, kept exactly as written, with Python's
clamping. When a virtual root is set, `i` already counts the virtual-root
segments. The reported `traversed` tuple then runs `len(vroot_tuple)`
segments past the object reached. `Traversal.WalkOutcome` states the
slice as it is.

## Model

| member | source | states |
|---|---|---|
| ByteStrings.Split | repoze/bfg/traversal.py:427 | `path.split('/')` yields at least one piece, no piece holds a slash, and joining the pieces with `/` gives the path back |
| ByteStrings.SplitJoin | repoze/bfg/traversal.py:427 | splitting the `/`-join of slash-free pieces gives exactly those pieces back |
| ByteStrings.RStrip | repoze/bfg/traversal.py:424 | `rstrip('/')` is never longer than its input, does not end in `/`, and removes only slashes |
| ByteStrings.RStripIsPrefix | repoze/bfg/traversal.py:424 | what `rstrip('/')` keeps is a prefix of the string |
| ByteStrings.LStrip | repoze/bfg/traversal.py:425 | `lstrip('/')` is never longer than its input, does not start with `/`, and removes only slashes |
| ByteStrings.LStripIsSuffix | repoze/bfg/traversal.py:425 | what `lstrip('/')` keeps is a suffix of the string |
| ByteStrings.SplitAtSlash | repoze/bfg/traversal.py:427 | splitting `a + '/' + b` gives the pieces of `a` followed by the pieces of `b` |
| UrlQuoting.UrlQuote | repoze/bfg/traversal.py:474-476 | a quoted segment never contains `/` and is never shorter than its input |
| UrlQuoting.Unquote | repoze/bfg/traversal.py:428 | unquoting never makes a segment longer |
| UrlQuoting.UnquoteUrlQuote | repoze/bfg/traversal.py:428 | `urllib.unquote(url_quote(s)) == s` for every byte string |
| Utf8.Decode | repoze/bfg/traversal.py:435-438 | a successful decode is no longer than its input, and is empty exactly when the input is |
| Utf8.DecodeEncode | repoze/bfg/traversal.py:473-474 | decoding the UTF-8 encoding of any text gives the text back |
| Utf8.EncodeDecode | repoze/bfg/traversal.py:435 | a byte string that decodes is the encoding of what it decodes to |
| PathSegments.TraversalPath | repoze/bfg/traversal.py:424-440 | the loop that appends to and deletes from `clean` returns, or raises, what the left fold `DecodedPath` gives |
| PathSegments.DecodedPathIsClean | repoze/bfg/traversal.py:429-439 | a decoded path never contains `''`, `'.'` or `'..'` |
| PathSegments.NormalizeFailsAt | repoze/bfg/traversal.py:431-438 | a failure comes from one piece after a successful prefix; `IndexError` only from `..` with nothing kept, `TypeError` only from a piece that is not `..` and does not decode, and no other error |
| PathSegments.NormalizeErrorPersists | repoze/bfg/traversal.py:432-438 | once a prefix of the pieces raises, the whole path raises the same error |
| PathSegments.NormalizePlain | repoze/bfg/traversal.py:427-439 | pieces that unquote and decode to clean segments are all kept, in order |
| PathSegments.DecodedPathUnstripped | repoze/bfg/traversal.py:424-427 | stripping the slashes at both ends never changes what the pieces normalise to |
| PathSegments.DecodedPathConcat | repoze/bfg/traversal.py:424-440 | a string followed by a path that is empty or starts with `/` decodes to the string's segments followed by the path's |
| PathSegments.DecodedPathTrailingSlash | repoze/bfg/traversal.py:424 | a trailing slash does not change the decoded tuple; `/` and `''` decode to `()` |
| PathSegments.QuoteSegment | repoze/bfg/traversal.py:473-474 | the quoted form of a text segment holds no slash, is empty exactly when the segment is, and unquotes and decodes back to the segment |
| PathSegments.QuoteAll | repoze/bfg/traversal.py:636 | the list of quoted segments has one entry per segment, each the quoting of that segment |
| PathSegments.JoinedPath | repoze/bfg/traversal.py:635-636 | `_join_path_tuple` never returns an empty string: `()` joins to `/`; its inverse is `JoinedRoundTrip` and `AbsoluteRoundTrip` |
| PathSegments.JoinedStartsWithSlash | repoze/bfg/traversal.py:636 | a tuple starting with `''` joins to a string starting with `/` |
| PathSegments.JoinedAbsolute | repoze/bfg/traversal.py:636 | `_join_path_tuple(('',)+S)` starts with `/`, and is exactly `/` when `S` is empty |
| PathSegments.JoinedRoundTrip | repoze/bfg/traversal.py:636 | the `/`-join of the quoted clean segments `S` decodes back to `S` |
| PathSegments.AbsoluteRoundTrip | repoze/bfg/traversal.py:636 | `traversal_path(_join_path_tuple(('',)+S)) == S` for every `S` without `''`, `'.'` or `'..'` |
| PathSegments.SegmentCache.constructor | repoze/bfg/traversal.py:442 | the table starts empty, with every entry being the quoting of its key |
| PathSegments.SegmentCache.Quote | repoze/bfg/traversal.py:470-480 | returns the quoting of the segment; a hit returns the stored value and leaves the table unchanged; a miss stores exactly the returned value; existing entries never change |
| Location.Lineage | repoze/bfg/traversal.py:23 | the lineage starts at the object, each next element is the previous one's parent, and it ends at the first object without a parent |
| Location.FindRoot | repoze/bfg/traversal.py:17-27 | returns a parentless object, the last one of the lineage |
| Location.FindInterface | repoze/bfg/traversal.py:82-98 | `None` exactly when no lineage object passes the test; otherwise the first lineage object that passes it |
| Location.PathNames | repoze/bfg/traversal.py:326-327 | one name per lineage object, root first, with `None` written as `''` |
| Location.Reversed | repoze/bfg/traversal.py:327 | `list.reverse()`: the same length, with element `k` taken from position `len-1-k` |
| Location.ModelPathList | repoze/bfg/traversal.py:324-329 | the list built, reversed in place and extended is the path tuple: lineage names root first, then the elements; its length is the lineage length plus the number of elements |
| Location.ModelPathTuple | repoze/bfg/traversal.py:285-322 | `model_path_tuple` has one name per lineage object then the elements: it starts with the root's name, and the object's own name comes right before the elements; `Locators.FindModelInverse` resolves it back |
| Location.ModelPath | repoze/bfg/traversal.py:100-143 | `model_path` is never empty, and starts with `/` when the root is named `None` or `''`; `Locators.FindModelInverse` resolves it back |
| Location.Lookup | repoze/bfg/traversal.py:555-567 | a child found through `__getitem__` is an object of the graph |
| Location.PathNamesLeadBack | repoze/bfg/traversal.py:298-300 | in a location-aware graph the path tuple starts with `''`, its other names are clean and are not view markers, and looking them up from the root reaches the object again |
| Traversal.WalkSegments | repoze/bfg/traversal.py:544-583 | the loop over `vpath_tuple` returns what the recursive specification `Walk` gives from the root |
| Traversal.ModelGraphTraverser.constructor | repoze/bfg/traversal.py:490-491 | the traverser keeps the root it is given |
| Traversal.ModelGraphTraverser.Call | repoze/bfg/traversal.py:493-583 | `__call__` returns, or raises, what the specification `TraverserCall` gives for the request's environment |
| Traversal.WalkFrom | repoze/bfg/traversal.py:546-579 | a walk entered at index `i` with the object and virtual root of the first `i` lookups ends at a first stop at or after `i`, with the result `Outcome` describes |
| Traversal.WalkOutcome | repoze/bfg/traversal.py:546-583 | every walk ends at a first stop `k`, and its result is `Outcome` there. The context is the object reached along `vt[:k]`. A stop reports the view name (the text after `@@` for a marker), `subpath == vt[k+1:]` and `traversed == vt[:vroot_idx+k+1]`. A full walk reports `''`, the route subpath and `vt` |
| Traversal.FirstStopUnique | repoze/bfg/traversal.py:546-575 | there is only one index where a walk can end |
| Traversal.OutcomeVirtualRoot | repoze/bfg/traversal.py:576-577 | the virtual root is the object reached along the first `vroot_idx+1` segments once the walk got past `vroot_idx`, else the root |
| Traversal.CallWalks | repoze/bfg/traversal.py:536-545 | once the paths decode, the result is the walk along the decoded virtual path; the early `''`/`/` return agrees with walking `()` |
| Traversal.PlainRequest | repoze/bfg/traversal.py:516-521 | a request with no route match and no virtual-root key is the walk along its decoded `PATH_INFO` |
| Traversal.TraverserAtRoot | repoze/bfg/traversal.py:516-539 | a missing, empty or `/` `PATH_INFO` gives the root as context, with `''` as view name and nothing traversed |
| Traversal.TraverserWithoutVirtualRoot | repoze/bfg/traversal.py:528-534 | without the virtual-root key, `virtual_root` is the root and `virtual_root_path` is `()` |
| Traversal.TraverserWithVirtualRoot | repoze/bfg/traversal.py:523-527 | with the key, `virtual_root_path` is its decoded tuple; `virtual_root` is the root or the object reached along the first `len(vroot_tuple)` segments of the decoded virtual path |
| Traversal.TraverserStaysInGraph | repoze/bfg/traversal.py:544-583 | the context and the virtual root `__call__` reports are objects of the graph |
| Traversal.RouteSegments | repoze/bfg/traversal.py:502-513 | a route whose `*traverse` match is a tuple of clean names walks exactly those names, whatever `PATH_INFO` holds; the subpath is the route's tuple, `()` when missing, or a string subpath decoded, whose error the traverser raises |
| Traversal.JoinedDecodes | repoze/bfg/traversal.py:505-508 | the `*traverse` join of clean names decodes back to the names; `()` joins to `/`, which decodes to `()` |
| Traversal.VirtualRootIsKeyObject | repoze/bfg/traversal.py:523-527 | with the virtual-root key and a path that is empty or starts with `/` and decodes on its own, the segments walked are the key's followed by the path's; `virtual_root_path` is the key's tuple, and `virtual_root` is the object the key's segments lead to from the root when none is a view marker and every lookup succeeds, else the root |
| Traversal.KeyObjectReached | repoze/bfg/traversal.py:546-577 | the walk gets past `vroot_idx` exactly when the first `vroot_idx + 1` segments hold no view marker and can be looked up one after another |
| Locators.TraversalStart | repoze/bfg/traversal.py:273-274 | traversal starts at the model or one of its ancestors, an object of the graph (which of them for which path: `Locators.Traverse`) |
| Locators.Traverse | repoze/bfg/traversal.py:145-283 | `traverse` finds an object of the graph; it reports as `root` the physical root for a path starting with `/` and the model otherwise, and that object is also `virtual_root`, with `virtual_root_path == ()` |
| Locators.TraverseEmpty | repoze/bfg/traversal.py:268-271 | an empty string or empty tuple path returns the model itself, from `traverse` and from `find_model` |
| Locators.FindModel | repoze/bfg/traversal.py:29-80 | `find_model` returns an object of the graph; what it returns for relative paths is `FindModelRelative`, for generated paths `FindModelInverse` |
| Locators.FindModelWalks | repoze/bfg/traversal.py:75-80 | `find_model` along a decodable path is the walk from where `traverse` starts, with a non-empty view name becoming `KeyError` |
| Locators.WalkNames | repoze/bfg/traversal.py:546-583 | walking clean non-marker names ends at the object they lead to with view name `''`, or leaves a non-empty view name when a lookup fails |
| Locators.RelativePathString | repoze/bfg/traversal.py:268-269 | the joined quoted form of clean names is a relative path, neither `''` nor `/`, that decodes back to the names |
| Locators.FindModelRelative | repoze/bfg/traversal.py:75-80 | for clean non-marker names, `find_model` (string or tuple form) returns the object they lead to from the model, and raises `KeyError` exactly when some lookup fails |
| Locators.FindModelInverse | repoze/bfg/traversal.py:39-42 | in a location-aware graph (non-root names clean and not `@@` view markers, see Findings), `find_model(n, model_path(m)) == m` and `find_model(n, model_path_tuple(m)) == m` for every `n` with the same root |
| Locators.DefaultRoot | repoze/bfg/traversal.py:638-640 | the default root has no parent, no name and no `__getitem__` |
| Locators.DefaultRootBehaviour | repoze/bfg/traversal.py:638-646 | a default root is its own root, with path `/` and path tuple `('',)`; traversal from it always reports it as context and virtual root |
| ContextUrls.SlashedPath | repoze/bfg/traversal.py:618-620 | the model path with a slash appended unless it is `/`: never empty, always ending in `/` |
| ContextUrls.ContextUrl | repoze/bfg/traversal.py:608-632 | the URL is `application_url` followed by a tail that is empty or ends in `/`; prefixing the virtual-root path, when it was trimmed, gives back the slashed model path |
| ContextUrls.SlashedPathDecodes | repoze/bfg/traversal.py:618-620 | in a location-aware graph the slashed model path decodes to clean non-marker names that lead from the root to the context |
| ContextUrls.VirtualRoot | repoze/bfg/traversal.py:331-365 | `virtual_root` cannot fail without the key; it returns an object of the graph or `request.root`, and with neither key nor `request.root` a parentless object |
| ContextUrls.RequestedAgain | repoze/bfg/traversal.py:625-629 | the URL tail requested again with the same virtual-root key makes a virtual path that decodes like the slashed model path |
| ContextUrls.ContextUrlTraversesBack | repoze/bfg/traversal.py:613-632 | a generated URL requested again with the same virtual-root key traverses from the physical root back to the context, with an empty view name |
| ContextUrls.VirtualRootFound | repoze/bfg/traversal.py:596-606 | a key holding the model path of an object makes that object the virtual root; with neither key nor `request.root` it is the parentless end of the lineage |
| Examples.PlainPiece | repoze/bfg/traversal.py:428-435 | a clean segment without `/` or `%` becomes a non-empty slash-free piece that unquotes and decodes back to itself |
| Examples.NormalizePop | repoze/bfg/traversal.py:431-432 | a `..` piece deletes the last kept segment, and raises `IndexError` when `clean` is empty |
| Examples.DecodedJoin | repoze/bfg/traversal.py:424-427 | a slash followed by the `/`-join of slash-free pieces, first and last non-empty, with or without a trailing slash, decodes as those pieces normalise |
| Examples.DecodeSlash | repoze/bfg/traversal.py:379-381 | `traversal_path('/') == ()` |
| Examples.DecodePlain | repoze/bfg/traversal.py:383-385 | `traversal_path('/a/b/c') == (a, b, c)` for any plain segments, and likewise for one and two segments |
| Examples.DecodeSkipsEmpty | repoze/bfg/traversal.py:395-397 | `traversal_path('/foo//bar//baz/') == ('foo', 'bar', 'baz')` |
| Examples.DecodeParent | repoze/bfg/traversal.py:399-401 | `traversal_path('/foo/bar/baz/..') == ('foo', 'bar')` |
| Examples.DecodeTooManyParents | repoze/bfg/traversal.py:431-432 | `traversal_path('/foo/../..')` raises `IndexError`: the second `..` finds `clean` empty |
| Examples.DecodeUnquotes | repoze/bfg/traversal.py:403-405 | `traversal_path('/my%20archives/hello') == ('my archives', 'hello')` |
| Examples.DecodeNotUtf8 | repoze/bfg/traversal.py:434-438 | `traversal_path('/%FF')` raises `TypeError`: the piece unquotes to the byte 0xFF, which is not UTF-8 |
| Examples.JoinEmptyTuple | repoze/bfg/traversal.py:635-636 | `_join_path_tuple(()) == '/'` |
| Examples.JoinExamples | repoze/bfg/traversal.py:635-636 | `_join_path_tuple(('foo', 'bar')) == 'foo/bar'`, with no leading slash, and `_join_path_tuple(('', 'foo', 'bar')) == '/foo/bar'` |
| Examples.Chain3IsChainAB | repoze/bfg/traversal.py:546-583 | the three-object graph root, `a`, `b` written out has the shape the traverser examples assume |
| Examples.TraverseMissingChild | repoze/bfg/traversal.py:566-574 | traversing `/a/b/c` where `b` has no `c` gives context `b`, view name `c`, subpath `()` and `traversed == ('a', 'b')` |
| Examples.TraverseViewMarker | repoze/bfg/traversal.py:547-554 | traversing `/a/b/@@edit` gives context `b` and view name `edit` |
| Examples.VirtualRootRequest | repoze/bfg/traversal.py:515-527 | with the virtual-root key `v`, the `PATH_INFO` `p` is walked as `v + p`, with `vroot_idx` one less than the length of the decoded key |
| Examples.TraverseVirtualRoot | repoze/bfg/traversal.py:524-583 | with the key `/a`, `PATH_INFO` `/b` gives context `b`, virtual root `a`, `virtual_root_path == ('a',)` and `traversed == ('a', 'b')` |
| Examples.TraverseVirtualRootStop | repoze/bfg/traversal.py:566-574 | with the key `/a`, `PATH_INFO` `/b/c` stops at `b` with view name `c`, and the slice `vpath_tuple[:vroot_idx+i+1]` reports `('a', 'b', 'c')` |
| Examples.FindRootExamples | repoze/bfg/traversal.py:17-27 | `find_root` of `b`, of `a` and of the root is the root |
| Examples.AbsoluteStart | repoze/bfg/traversal.py:273-274 | `traverse` with a path string that starts with `/` begins at `find_root(model)` |
| Examples.FindModelChild | repoze/bfg/traversal.py:75-80 | `find_model(a, ('b',))` returns `b` |
| Findings.ViewMarkerNameUnresolvable | repoze/bfg/traversal.py:71-73 | for a child of the root named `@@…`, `find_model` on its path tuple or path string raises `KeyError` for the text after `@@` (returns the root for a bare `@@`), and never returns the child |
| Findings.DotNameResolvesToRoot | repoze/bfg/traversal.py:39-42 | for a child of the root named `.`, `find_model` on its path tuple or path string returns the root, not the child |
| Findings.DotDotNameRaises | repoze/bfg/traversal.py:39-42 | for a child of the root named `..`, `find_model` on its path tuple or path string raises `IndexError` |
| Findings.KeyPrefixSplitsName | repoze/bfg/traversal.py:625-629 | with children `a` and `ab` and the key `/a`, the URL of `ab` is `application_url` followed directly by `b/`; a `PATH_INFO` of `b/`, or a route `*traverse` of `('b',)`, gives `ab` as context and as virtual root with `virtual_root_path == ('a',)`, though the key leads to `a` |
| Findings.ParentClimbsOutOfKey | repoze/bfg/traversal.py:523-527 | with children `a` and `ab`, the key `/a` and `PATH_INFO` `/../ab`, the walk goes along `('ab',)` and reports `ab` as context and as virtual root with `virtual_root_path == ('a',)`, though the key leads to `a`; `/../ab` alone raises `IndexError` |
| Examples.FindModelMissing | repoze/bfg/traversal.py:75-80 | `find_model(a, '/a/b/c')` starts at the root and raises `KeyError` for `c` |

## Left out

- Locators.FindModelInverse: proved for location-aware graphs, whose non-root objects have names that are not `''`, `.` or `..` and do not start with `@@`. The documentation promises the inverse for every graph; the code does not meet it for such names (Findings).
- Traversal.VirtualRootIsKeyObject: stated for a path that is empty or starts with `/`, as `PATH_INFO` does, and that decodes on its own. For a path not starting with `/` the raw concatenation can merge the key's last segment with the path's first, and a `..` in a path that does not decode on its own deletes one of the key's segments (Findings).

- Registry and adapter lookup (`get_current_registry`, `queryAdapter`, `queryMultiAdapter`) are not modelled. `traverse` always uses `ModelGraphTraverser`, and `virtual_root(model, request)` always uses `TraversalContextURL`, so it is `ContextUrls.VirtualRoot`.
- `Request.blank(path)` is modelled as an environment whose `PATH_INFO` is the path itself, with no route match and no virtual-root key. webob's own handling of the string is left out. `request.application_url` is an opaque byte string.
- The `@lru_cache(1000)` memoisation of `traversal_path` and `_join_path_tuple` is left out: both are pure functions here.
- `quote_path_segment` on a byte string (`str`) segment is left out. Segments are text throughout: model names, route tuples and path tuples.
- `ModelGraphTraverser.Call` joins a route's `*traverse` tuple with the pure `QuoteSegment`, not through a `SegmentCache`. `SegmentCache.Quote` returns the same value, so only the growth of the table during traversal is not tracked.
- Utf8.Decode: rejects encoded surrogate code points, which Python 2's codec accepts, because a Dafny `char` cannot hold a surrogate. Such a segment raises `TypeError` here.
- The `request.environ` / `AttributeError` fallback for callers that pass an environment instead of a request is duck-typing plumbing and is left out.
- `DefaultRootFactory`'s `__dict__.update(matchdict)` copies arbitrary attributes and is left out. The default root is modelled by its `None` parent and name and its lack of `__getitem__`.
- `find_interface`'s choice between `providedBy` and `isinstance` is the predicate `test` given to `Location.FindInterface`.
- The thread-safety of the unlocked store into `_segment_cache` is a concurrency matter and is left out.
- Cyclic parent chains are excluded by the graph's depth map. The source would loop forever on one.
- A `__name__` that is not a string (a `TypeError` in `model_path`) cannot arise: names are text.
- Results of URL dispatch (`traversed` and `virtual_root_path` of `None`) are produced outside this core.
- The text of `find_model`'s `KeyError` message is reduced to the view name it reports.
- Two documented `traversal_path` examples are not stated as literal instances: `foo/bar/baz` and `/foo/bar/baz/` differ from `/foo/bar/baz` only in the slashes `lstrip` and `rstrip` remove (`DecodedPathTrailingSlash`, `StripLeadingSlash`), and `/archives/La%20Pe%C3%B1a` is covered by the unquote and UTF-8 round trips.
- The traverser, `find_model` and `find_root` examples are stated for every graph of the shape `Examples.IsChainAB` describes, not for one literal graph; `Examples.Chain3IsChainAB` shows such a graph exists.
- ContextUrls.ContextUrl: the tail ends in `/` unless the virtual-root path consumes the whole slashed model path, in which case it is empty. The source does not guard this case.

## Findings

| source | as written | input that shows it | evidently intended | confidence | as-written member | corrected member |
|---|---|---|---|---|---|---|
| repoze/bfg/traversal.py:71-73 | `model_path_tuple` keeps a name starting with `@@`, and traversal reads that segment as a view name | a root with one child named `@@x`: `find_model(root, model_path_tuple(child))` raises `KeyError('x')`, and so does the path string | every path tuple or string that `model_path_tuple`/`model_path` generates resolves back to its object | not executed | Findings.ViewMarkerNameUnresolvable | Locators.FindModelInverse |
| repoze/bfg/traversal.py:39-42 | quoting leaves a name `.` unchanged, and `traversal_path` skips a `.` segment | a root with one child named `.`: `find_model(root, model_path(child))` is the root | `find_model` is the inverse of `model_path` | not executed | Findings.DotNameResolvesToRoot | Locators.FindModelInverse |
| repoze/bfg/traversal.py:39-42 | quoting leaves a name `..` unchanged, and `traversal_path` pops a segment for `..` | a root with one child named `..`: `find_model(root, model_path(child))` raises `IndexError` | `find_model` is the inverse of `model_path` | not executed | Findings.DotDotNameRaises | Locators.FindModelInverse |
| repoze/bfg/traversal.py:625-629 | the virtual-root path is cut off the model path with `startswith`, without regard to segment boundaries, and put back in front of the path (lines 523-527) by string concatenation | root children `a` and `ab`, key `/a`: the URL of `ab` is `application_url + 'b/'`, with no slash after the application URL; a request whose `PATH_INFO` is `b/` gives `virtual_root` `ab` with `virtual_root_path` `('a',)`, and so does a route `*traverse` of `('b',)` | the virtual root is the object the key's path names, with the path's segments walked after the key's, as happens for a path that is empty or starts with `/` and decodes on its own | not executed | Findings.KeyPrefixSplitsName | Traversal.VirtualRootIsKeyObject |
| repoze/bfg/traversal.py:523-527 | the key's path and `PATH_INFO` are joined before decoding, so a `..` in `PATH_INFO` (lines 431-432) climbs out of the virtual root and deletes one of the key's segments | root children `a` and `ab`, key `/a`, `PATH_INFO` `/../ab`: the walk goes along `('ab',)` and reports `virtual_root` `ab` with `virtual_root_path` `('a',)`; `traversal_path('/../ab')` alone raises `IndexError` | the virtual root is the object the key's path names, with the path's own segments walked after the key's, as happens for a path that is empty or starts with `/` and decodes on its own | not executed | Findings.ParentClimbsOutOfKey | Traversal.VirtualRootIsKeyObject |
