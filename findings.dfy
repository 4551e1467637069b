/** Three places where repoze/bfg/traversal.py does less than its own
    documentation says: `find_model` cannot resolve the path of an object
    whose name is a view marker or a dot segment, and the virtual-root
    path is cut from, and put back in front of, a path as raw text, so it
    can split a segment in two.  Each is stated as a lemma about the model
    of the code as written; the property the documentation promises is
    proved where the code meets it (`Locators.FindModelInverse`,
    `Traversal.VirtualRootIsKeyObject`). */
module Findings {
  import opened Wrappers
  import opened ByteStrings
  import opened UrlQuoting
  import opened PathSegments
  import opened Location
  import opened Traversal
  import opened Locators
  import opened ContextUrls
  import Utf8

  /** `m` is a child of a root `r` named `None`, under the name `t`: the
      parent's `__getitem__` finds `m` under `t`, and `m` names `r` as its
      parent and `t` as its name, as a location-aware object does. */
  ghost predicate ChildOfRoot(g: Graph, r: NodeId, m: NodeId, t: string)
  {
    g.Valid() && r in g.nodes && m in g.nodes &&
    g.nodes[r].parent.None? && g.nodes[r].name.None? &&
    g.nodes[m].parent == Some(r) && g.nodes[m].name == Some(t) && Lookup(g, r, t) == Some(m)
  }

  /** The path tuple of such a child is `('', t)`, and both it and the
      path string reach `traverse` as the join of that tuple, an absolute
      path traversed from `r`. */
  lemma ChildPath(g: Graph, r: NodeId, m: NodeId, t: string)
    requires ChildOfRoot(g, r, m, t)
    ensures ModelPathTuple(g, m, []) == ["", t]
    ensures PathString(Segments(ModelPathTuple(g, m, []))) == JoinedPath(["", t])
    ensures PathString(Str(ModelPath(g, m, []))) == JoinedPath(["", t])
    ensures JoinedPath(["", t])[0] == SLASH && TraversalStart(g, m, JoinedPath(["", t])) == r
  {
    assert Lineage(g, r) == [r];
    assert Lineage(g, m) == [m, r];
    assert PathNames(g, m) == PathNames(g, r) + [t];
    JoinedStartsWithSlash(["", t]);
  }

  /** An object named by a view marker (`@@x`) cannot be found again from
      its own path: the traverser takes the name for a view name and stops
      at the root, so `find_model` raises `KeyError` for the text after
      `@@`, or returns the root when nothing follows it.  Either way it
      does not return the object. */
  lemma ViewMarkerNameUnresolvable(g: Graph, r: NodeId, m: NodeId, t: string)
    requires ChildOfRoot(g, r, m, t) && IsClean(t) && IsViewMarker(t)
    ensures FindModel(g, m, Segments(ModelPathTuple(g, m, []))) == (if |t| > 2 then Err(KeyError(t[2..])) else Ok(r))
    ensures FindModel(g, m, Str(ModelPath(g, m, []))) == FindModel(g, m, Segments(ModelPathTuple(g, m, [])))
    ensures FindModel(g, m, Str(ModelPath(g, m, []))) != Ok(m)
  {
    ChildPath(g, r, m, t);
    var p := JoinedPath(["", t]);
    AbsoluteRoundTrip([t]);
    JoinedAbsolute([t]);
    assert [""] + [t] == ["", t];
    PlainRequest(g, r, [t], p);
    assert Walk(g, Walker(r, [t], -1, [], []), 0, r, r) == TraversalResult(r, t[2..], [], [], r, [], r);
  }

  /** A graph with such an object, written out. */
  function MarkerGraph(): Graph
  {
    Graph(map[0 := Node(None, None, Some(map["@@x" := 1])),
              1 := Node(Some("@@x"), Some(0), None)],
          map[0 := 0, 1 := 1])
  }

  lemma MarkerGraphShape()
    ensures ChildOfRoot(MarkerGraph(), 0, 1, "@@x") && IsClean("@@x") && IsViewMarker("@@x")
  {
  }

  /** An object named `.` cannot be found again from its own path either:
      quoting leaves dots alone, so its path is `/.`, which
      `traversal_path` reads as "stay", and `find_model` returns the
      root. */
  lemma DotNameResolvesToRoot(g: Graph, r: NodeId, m: NodeId)
    requires ChildOfRoot(g, r, m, ".")
    ensures FindModel(g, m, Segments(ModelPathTuple(g, m, []))) == Ok(r)
    ensures FindModel(g, m, Str(ModelPath(g, m, []))) == Ok(r)
    ensures r != m
  {
    ChildPath(g, r, m, ".");
    JoinedRootChild(".");
    DecodeDot();
    PlainRequestUnfolds(g, r, [SLASH, DOT]);
  }

  /** An object named `..` has the path `/..`, which `traversal_path`
      reads as "go up" from nothing: `find_model` raises `IndexError`. */
  lemma DotDotNameRaises(g: Graph, r: NodeId, m: NodeId)
    requires ChildOfRoot(g, r, m, "..")
    ensures FindModel(g, m, Segments(ModelPathTuple(g, m, []))) == Err(IndexError)
    ensures FindModel(g, m, Str(ModelPath(g, m, []))) == Err(IndexError)
  {
    ChildPath(g, r, m, "..");
    JoinedRootChild("..");
    DecodeDotDot();
    PlainRequestUnfolds(g, r, [SLASH, DOT, DOT]);
  }

  /** The tuple `('', t)` joins to a slash followed by the quoted `t`. */
  lemma JoinedRootChild(t: string)
    ensures JoinedPath(["", t]) == [SLASH] + QuoteSegment(t)
  {
    var q := QuoteAll(["", t]);
    assert q == [[], QuoteSegment(t)];
    assert Join(q) == [] + [SLASH] + Join(q[1..]);
  }

  /** Quoting leaves dots alone. */
  lemma QuoteDots()
    ensures QuoteSegment(".") == [DOT] && QuoteSegment("..") == [DOT, DOT]
  {
    assert Utf8.Encode(".") == [DOT];
    assert Utf8.Encode("..") == [DOT, DOT];
  }

  /** `/.` decodes to `()`. */
  lemma DecodeDot()
    ensures [SLASH] + QuoteSegment(".") == [SLASH, DOT]
    ensures DecodedPath([SLASH, DOT]) == Ok([])
  {
    QuoteDots();
    SlashThenPiece([DOT]);
    assert Unquote([DOT]) == [DOT];
  }

  /** `/..` raises `IndexError`. */
  lemma DecodeDotDot()
    ensures [SLASH] + QuoteSegment("..") == [SLASH, DOT, DOT]
    ensures DecodedPath([SLASH, DOT, DOT]) == Err(IndexError)
  {
    QuoteDots();
    SlashThenPiece([DOT, DOT]);
    assert Unquote([DOT, DOT]) == [DOT, DOT];
  }

  /** A slash followed by one slash-free piece decodes as that piece
      alone, on an empty list. */
  lemma SlashThenPiece(piece: seq<byte>)
    requires SLASH !in piece
    ensures DecodedPath([SLASH] + piece) == Step([], piece)
  {
    var p := [SLASH] + piece;
    AbsolutePieces(p);
    assert p[1..] == piece;
    SplitSlashFree(piece);
    var pieces := [piece];
    assert pieces[..0] == [];
  }

  /** Graphs with such objects, written out. */
  function DotGraph(t: string): Graph
  {
    Graph(map[0 := Node(None, None, Some(map[t := 1])),
              1 := Node(Some(t), Some(0), None)],
          map[0 := 0, 1 := 1])
  }

  lemma DotGraphShape()
    ensures ChildOfRoot(DotGraph("."), 0, 1, ".") && ChildOfRoot(DotGraph(".."), 0, 1, "..")
  {
  }

  /** The bytes `a` and `b`. */
  const LETTER_A: byte := 97
  const LETTER_B: byte := 98

  /** A root with two children, `a` and `ab`, as a location-aware graph
      has them. */
  ghost predicate SiblingsAAB(g: Graph)
  {
    ChildOfRoot(g, 0, 1, "a") && ChildOfRoot(g, 0, 2, "ab")
  }

  /** With the virtual-root key `/a`, the URL of `ab` cuts `/a` off its
      model path `/ab/` and leaves `b/`.  Requesting that URL again, or
      matching a route whose `*traverse` is `('b',)`, gives `ab` as the
      context, but also as the virtual root, with `('a',)` as the virtual
      root path: the key named the object `a`, and the walk never looked
      `a` up. */
  lemma KeyPrefixSplitsName(g: Graph, request: Request)
    requires SiblingsAAB(g) && request.env.vhRoot == Some([SLASH, LETTER_A])
    ensures ContextUrl(g, 2, request) == request.applicationUrl + [LETTER_B, SLASH]
    ensures TraverserCall(g, 0, Environ(None, Some([LETTER_B, SLASH]), Some([SLASH, LETTER_A]))) ==
            Ok(TraversalResult(2, "", [], ["ab"], 2, ["a"], 0))
    ensures TraverserCall(g, 0, Environ(Some(MatchDict(Some(Segments(["b"])), None)), None, Some([SLASH, LETTER_A]))) ==
            Ok(TraversalResult(2, "", [], ["ab"], 2, ["a"], 0))
    ensures DecodedPath([SLASH, LETTER_A]) == Ok(["a"]) && Descend(g, 0, ["a"]) == Some(1) && 1 != 2
  {
    UrlOfAB(g, request);
    var w := Walker(0, ["ab"], 0, ["a"], []);
    WalkAB(g, w);
    DecodeA();
    DecodeAB();
    UrlB(g, w);
    RouteB(g, w);
    assert Lookup(g, 0, "a") == Some(1);
  }

  /** A `..` in `PATH_INFO` climbs out of the virtual root: with children
      `a` and `ab` and the key `/a`, the path `/../ab` is prefixed to
      `/a/../ab`, which decodes to `('ab',)`.  The walk then reaches `ab`
      and reports it as virtual root while `virtual_root_path` is
      `('a',)`; the path on its own raises `IndexError`. */
  lemma ParentClimbsOutOfKey(g: Graph)
    requires SiblingsAAB(g)
    ensures DecodedPath(UP_AB) == Err(IndexError)
    ensures TraverserCall(g, 0, Environ(None, Some(UP_AB), Some([SLASH, LETTER_A]))) ==
            Ok(TraversalResult(2, "", [], ["ab"], 2, ["a"], 0))
  {
    var key := [SLASH, LETTER_A];
    var env := Environ(None, Some(UP_AB), Some(key));
    var vpath := [SLASH, LETTER_A, SLASH, DOT, DOT, SLASH, LETTER_A, LETTER_B];
    DecodeUpAB(UP_AB);
    DecodeA();
    DecodeKeyUpAB(vpath);
    assert RequestPath(env) == Ok((UP_AB, []));
    assert key + UP_AB == vpath;
    CallWalks(g, 0, env, UP_AB, [], ["a"], vpath, ["ab"]);
    WalkAB(g, Walker(0, ["ab"], 0, ["a"], []));
  }

  /** The `PATH_INFO` of `ParentClimbsOutOfKey`. */
  const UP_AB: seq<byte> := [SLASH, DOT, DOT, SLASH, LETTER_A, LETTER_B]

  /** The pieces `a`, `..` and `ab` normalise one after another to
      `('a',)`, `()` and `('ab',)`. */
  lemma StepsUpAB()
    ensures Step([], [LETTER_A]) == Ok(["a"])
    ensures Step(["a"], [DOT, DOT]) == Ok([])
    ensures Step([], [DOT, DOT]) == Err(IndexError)
    ensures Step([], [LETTER_A, LETTER_B]) == Ok(["ab"])
  {
    DecodeA();
    SlashThenPiece([LETTER_A]);
    DecodeABPiece([SLASH, LETTER_A, LETTER_B]);
    SlashThenPiece([LETTER_A, LETTER_B]);
    assert [SLASH] + [LETTER_A] == [SLASH, LETTER_A];
    assert [SLASH] + [LETTER_A, LETTER_B] == [SLASH, LETTER_A, LETTER_B];
    assert Unquote([DOT, DOT]) == [DOT, DOT];
  }

  /** `/../ab` raises `IndexError`: its first piece is `..`. */
  lemma DecodeUpAB(p: seq<byte>)
    requires p == UP_AB
    ensures DecodedPath(p) == Err(IndexError)
  {
    AbsolutePieces(p);
    var pieces := [[DOT, DOT], [LETTER_A, LETTER_B]];
    SplitUpAB(p[1..]);
    StepsUpAB();
    assert pieces[..0] == [];
    NormalizeNext(pieces, 0, []);
  }

  /** `/a/../ab` decodes to `('ab',)`. */
  lemma DecodeKeyUpAB(v: seq<byte>)
    requires v == [SLASH, LETTER_A, SLASH, DOT, DOT, SLASH, LETTER_A, LETTER_B]
    ensures DecodedPath(v) == Ok(["ab"])
  {
    AbsolutePieces(v);
    var pieces := [[LETTER_A], [DOT, DOT], [LETTER_A, LETTER_B]];
    var rest := [DOT, DOT, SLASH, LETTER_A, LETTER_B];
    KeyUpABParts(v, rest, pieces);
    SplitKeyUpAB(v[1..], rest, pieces);
    StepsUpAB();
    assert pieces[..0] == [];
    NormalizeNext(pieces, 0, []);
    NormalizeNext(pieces, 1, ["a"]);
    NormalizeNext(pieces, 2, []);
    assert pieces[..3] == pieces;
  }

  lemma KeyUpABParts(v: seq<byte>, rest: seq<byte>, pieces: seq<seq<byte>>)
    requires v == [SLASH, LETTER_A, SLASH, DOT, DOT, SLASH, LETTER_A, LETTER_B]
    requires rest == [DOT, DOT, SLASH, LETTER_A, LETTER_B]
    requires pieces == [[LETTER_A], [DOT, DOT], [LETTER_A, LETTER_B]]
    ensures v[1..] == [LETTER_A] + [SLASH] + rest
    ensures pieces == [[LETTER_A]] + [[DOT, DOT], [LETTER_A, LETTER_B]]
  {
  }

  lemma SplitKeyUpAB(s: seq<byte>, rest: seq<byte>, pieces: seq<seq<byte>>)
    requires rest == [DOT, DOT, SLASH, LETTER_A, LETTER_B] && s == [LETTER_A] + [SLASH] + rest
    requires pieces == [[LETTER_A]] + [[DOT, DOT], [LETTER_A, LETTER_B]]
    ensures Split(s) == pieces
  {
    SplitAtSlash([LETTER_A], rest);
    SplitSlashFree([LETTER_A]);
    SplitUpAB(rest);
  }

  lemma SplitUpAB(s: seq<byte>)
    requires s == [DOT, DOT, SLASH, LETTER_A, LETTER_B]
    ensures Split(s) == [[DOT, DOT], [LETTER_A, LETTER_B]]
  {
    assert s == [DOT, DOT] + [SLASH] + [LETTER_A, LETTER_B];
    SplitAtSlash([DOT, DOT], [LETTER_A, LETTER_B]);
    SplitSlashFree([DOT, DOT]);
    SplitSlashFree([LETTER_A, LETTER_B]);
  }

  /** The URL half of `KeyPrefixSplitsName`. */
  lemma UrlOfAB(g: Graph, request: Request)
    requires SiblingsAAB(g) && request.env.vhRoot == Some([SLASH, LETTER_A])
    ensures ContextUrl(g, 2, request) == request.applicationUrl + [LETTER_B, SLASH]
  {
    SlashedAB(g);
  }

  /** The request half of `KeyPrefixSplitsName`. */
  lemma UrlB(g: Graph, w: Walker)
    requires SiblingsAAB(g) && w == Walker(0, ["ab"], 0, ["a"], [])
    requires DecodedPath([SLASH, LETTER_A]) == Ok(["a"]) && DecodedPath([SLASH, LETTER_A, LETTER_B, SLASH]) == Ok(["ab"])
    requires Walk(g, w, 0, 0, 0) == TraversalResult(2, "", [], ["ab"], 2, ["a"], 0)
    ensures TraverserCall(g, 0, Environ(None, Some([LETTER_B, SLASH]), Some([SLASH, LETTER_A]))) ==
            Ok(TraversalResult(2, "", [], ["ab"], 2, ["a"], 0))
  {
    var env := Environ(None, Some([LETTER_B, SLASH]), Some([SLASH, LETTER_A]));
    assert RequestPath(env) == Ok(([LETTER_B, SLASH], []));
    assert [SLASH, LETTER_A] + [LETTER_B, SLASH] == [SLASH, LETTER_A, LETTER_B, SLASH];
    CallWalks(g, 0, env, [LETTER_B, SLASH], [], ["a"], [SLASH, LETTER_A, LETTER_B, SLASH], ["ab"]);
  }

  /** The route half of `KeyPrefixSplitsName`. */
  lemma RouteB(g: Graph, w: Walker)
    requires SiblingsAAB(g) && w == Walker(0, ["ab"], 0, ["a"], [])
    requires DecodedPath([SLASH, LETTER_A]) == Ok(["a"]) && DecodedPath([SLASH, LETTER_A, LETTER_B]) == Ok(["ab"])
    requires Walk(g, w, 0, 0, 0) == TraversalResult(2, "", [], ["ab"], 2, ["a"], 0)
    ensures TraverserCall(g, 0, Environ(Some(MatchDict(Some(Segments(["b"])), None)), None, Some([SLASH, LETTER_A]))) ==
            Ok(TraversalResult(2, "", [], ["ab"], 2, ["a"], 0))
  {
    var env := Environ(Some(MatchDict(Some(Segments(["b"])), None)), None, Some([SLASH, LETTER_A]));
    JoinB();
    assert RequestPath(env) == Ok(([LETTER_B], []));
    assert [SLASH, LETTER_A] + [LETTER_B] == [SLASH, LETTER_A, LETTER_B];
    CallWalks(g, 0, env, [LETTER_B], [], ["a"], [SLASH, LETTER_A, LETTER_B], ["ab"]);
  }

  /** The walk along `('ab',)` with `vroot_idx` 0 stops at `ab` and takes
      it as the virtual root. */
  lemma WalkAB(g: Graph, w: Walker)
    requires SiblingsAAB(g) && w == Walker(0, ["ab"], 0, ["a"], [])
    ensures Walk(g, w, 0, 0, 0) == TraversalResult(2, "", [], ["ab"], 2, ["a"], 0)
  {
    assert "ab"[..2] == "ab";
    assert Lookup(g, 0, "ab") == Some(2);
    assert Walk(g, w, 0, 0, 0) == Walk(g, w, 1, 2, 2);
  }

  /** The model path of `ab` ends in a slash as `/ab/`, and the key `/a`
      is a prefix of it as raw text. */
  lemma SlashedAB(g: Graph)
    requires SiblingsAAB(g)
    ensures SlashedPath(g, 2) == [SLASH, LETTER_A, LETTER_B, SLASH]
    ensures StartsWith(SlashedPath(g, 2), [SLASH, LETTER_A])
  {
    ChildPath(g, 0, 2, "ab");
    JoinedRootChild("ab");
    QuoteLetters();
  }

  /** Quoting leaves letters alone. */
  lemma QuoteLetters()
    ensures QuoteSegment("a") == [LETTER_A] && QuoteSegment("b") == [LETTER_B]
    ensures QuoteSegment("ab") == [LETTER_A, LETTER_B]
  {
    assert Utf8.Encode("a") == [LETTER_A];
    assert Utf8.Encode("b") == [LETTER_B];
    assert Utf8.Encode("ab") == [LETTER_A, LETTER_B];
  }

  /** `/a` decodes to `('a',)`. */
  lemma DecodeA()
    ensures DecodedPath([SLASH, LETTER_A]) == Ok(["a"])
  {
    QuoteLetters();
    assert Unquote([LETTER_A]) == [LETTER_A];
    SlashPieceDecodes([LETTER_A], "a");
  }

  /** `/ab` and `/ab/` decode to `('ab',)`. */
  lemma DecodeAB()
    ensures DecodedPath([SLASH, LETTER_A, LETTER_B]) == Ok(["ab"])
    ensures DecodedPath([SLASH, LETTER_A, LETTER_B, SLASH]) == Ok(["ab"])
  {
    var p := [SLASH, LETTER_A, LETTER_B];
    DecodeABPiece(p);
    DecodeABSlash(p, [SLASH, LETTER_A, LETTER_B, SLASH]);
  }

  lemma DecodeABSlash(p: seq<byte>, q: seq<byte>)
    requires p == [SLASH, LETTER_A, LETTER_B] && q == [SLASH, LETTER_A, LETTER_B, SLASH]
    requires DecodedPath(p) == Ok(["ab"])
    ensures DecodedPath(q) == Ok(["ab"])
  {
    assert q == p + [SLASH];
    DecodedPathTrailingSlash(p);
  }

  lemma DecodeABPiece(p: seq<byte>)
    requires p == [SLASH, LETTER_A, LETTER_B]
    ensures DecodedPath(p) == Ok(["ab"])
  {
    QuoteLetters();
    var piece := [LETTER_A, LETTER_B];
    assert Unquote(piece) == piece;
    assert p == [SLASH] + piece;
    SlashPieceDecodes(piece, "ab");
  }

  /** A slash followed by a piece that unquoting leaves alone, that is not
      empty, `.` or `..`, and that is the UTF-8 encoding of `t`, decodes
      to `(t,)`. */
  lemma SlashPieceDecodes(piece: seq<byte>, t: string)
    requires SLASH !in piece && Unquote(piece) == piece
    requires piece != [] && piece != [DOT] && piece != [DOT, DOT]
    requires Utf8.Decode(piece) == Some(t)
    ensures DecodedPath([SLASH] + piece) == Ok([t])
  {
    SlashThenPiece(piece);
    var clean: seq<string> := [];
    assert Step(clean, piece) == Ok(clean + [t]);
    assert clean + [t] == [t];
  }

  /** `('b',)` joins to `b`. */
  lemma JoinB()
    ensures JoinedPath(["b"]) == [LETTER_B]
  {
    QuoteLetters();
    assert QuoteAll(["b"]) == [[LETTER_B]];
  }

  /** Such a graph, written out. */
  function SiblingsGraph(): Graph
  {
    Graph(map[0 := Node(None, None, Some(map["a" := 1, "ab" := 2])),
              1 := Node(Some("a"), Some(0), None),
              2 := Node(Some("ab"), Some(0), None)],
          map[0 := 0, 1 := 1, 2 := 1])
  }

  lemma SiblingsGraphShape()
    ensures SiblingsAAB(SiblingsGraph())
  {
  }
}
