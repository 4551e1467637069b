/** The worked examples that repoze/bfg/traversal.py documents for
    `traversal_path`, `_join_path_tuple`, the traverser, `find_model` and
    `find_root`, with a few more for the error paths, stated on concrete
    paths.  A path string is written as the UTF-8 bytes of a text literal;
    each concrete path is first taken apart into its pieces, and the
    pieces are then decoded by a lemma about plain segments in general. */
module Examples {
  import opened Wrappers
  import opened ByteStrings
  import opened UrlQuoting
  import opened PathSegments
  import opened Location
  import opened Traversal
  import opened Locators
  import Utf8

  /** A segment that normalisation keeps and that holds neither `/` nor
      `%`, so its bytes pass through splitting and unquoting unchanged. */
  predicate IsPlainSegment(t: string)
  {
    IsClean(t) && '/' !in t && '%' !in t
  }

  /** Encoding text distributes over concatenation. */
  lemma {:induction false} EncodeAppend(a: string, b: string)
    ensures Utf8.Encode(a + b) == Utf8.Encode(a) + Utf8.Encode(b)
    decreases |a|
  {
    if |a| > 0 {
      assert (a + b)[0] == a[0] && (a + b)[1..] == a[1..] + b;
      EncodeAppend(a[1..], b);
    } else {
      assert a + b == b;
    }
  }

  /** An ASCII character that is not in the text is not a byte of its
      encoding: every byte of a multi-byte form is at least 0x80. */
  lemma {:induction false} EncodeAvoidsAscii(t: string, c: char)
    requires c as int < 0x80 && c !in t
    ensures c as int !in Utf8.Encode(t)
    decreases |t|
  {
    if |t| > 0 {
      assert t[0] != c && c !in t[1..];
      EncodeAvoidsAscii(t[1..], c);
    }
  }

  /** `urllib.unquote` leaves a byte string without `%` alone. */
  lemma {:induction false} UnquoteNoPercent(s: seq<byte>)
    requires PERCENT !in s
    ensures Unquote(s) == s
    decreases |s|
  {
    if |s| > 0 {
      UnquoteNoPercent(s[1..]);
    }
  }

  /** Unquoting splits after a part without `%`. */
  lemma {:induction false} UnquoteAppend(a: seq<byte>, b: seq<byte>)
    requires PERCENT !in a
    ensures Unquote(a + b) == a + Unquote(b)
    decreases |a|
  {
    if |a| > 0 {
      assert (a + b)[0] == a[0] && (a + b)[1..] == a[1..] + b;
      UnquoteAppend(a[1..], b);
    } else {
      assert a + b == b;
    }
  }

  /** The bytes of a plain segment hold no slash, and unquote and decode
      back to the segment. */
  lemma PlainPiece(t: string)
    requires IsPlainSegment(t)
    ensures SLASH !in Utf8.Encode(t) && |Utf8.Encode(t)| > 0
    ensures Utf8.Decode(Unquote(Utf8.Encode(t))) == Some(t)
  {
    EncodeAvoidsAscii(t, '/');
    EncodeAvoidsAscii(t, '%');
    UnquoteNoPercent(Utf8.Encode(t));
    Utf8.DecodeEncode(t);
  }

  /** Normalising one more piece is one more turn of the loop. */
  lemma NormalizeSnoc(pieces: seq<seq<byte>>, p: seq<byte>)
    ensures Normalize(pieces + [p]) ==
              match Normalize(pieces)
              case Err(e) => Err(e)
              case Ok(clean) => Step(clean, p)
  {
    assert (pieces + [p])[..|pieces|] == pieces;
  }

  /** A piece that decodes to a clean segment appends it. */
  lemma NormalizeKeep(pieces: seq<seq<byte>>, clean: seq<string>, p: seq<byte>, t: string)
    requires Normalize(pieces) == Ok(clean)
    requires IsClean(t) && Utf8.Decode(Unquote(p)) == Some(t)
    ensures Normalize(pieces + [p]) == Ok(clean + [t])
  {
    NormalizeSnoc(pieces, p);
    CleanPieceKept(clean, p, t);
  }

  /** An empty piece is skipped. */
  lemma NormalizeSkip(pieces: seq<seq<byte>>, clean: seq<string>)
    requires Normalize(pieces) == Ok(clean)
    ensures Normalize(pieces + [[]]) == Ok(clean)
  {
    NormalizeSnoc(pieces, []);
  }

  /** A `..` piece deletes the last kept segment, or raises `IndexError`
      when there is none. */
  lemma NormalizePop(pieces: seq<seq<byte>>, clean: seq<string>)
    requires Normalize(pieces) == Ok(clean)
    ensures Normalize(pieces + [[DOT, DOT]]) == if clean == [] then Err(IndexError) else Ok(clean[..|clean| - 1])
  {
    NormalizeSnoc(pieces, [DOT, DOT]);
    assert Unquote([DOT, DOT]) == [DOT, DOT];
  }

  /** A slash followed by the `/`-join of slash-free pieces, the first and
      last not empty, decodes as the pieces normalise, with or without a
      trailing slash. */
  lemma DecodedJoin(path: seq<byte>, pieces: seq<seq<byte>>)
    requires |pieces| > 0 && |pieces[0]| > 0 && |pieces[|pieces| - 1]| > 0
    requires forall k :: 0 <= k < |pieces| ==> SLASH !in pieces[k]
    requires path == [SLASH] + Join(pieces) || path == [SLASH] + Join(pieces) + [SLASH]
    ensures DecodedPath(path) == Normalize(pieces)
  {
    var joined := Join(pieces);
    var last := pieces[|pieces| - 1];
    JoinStartsWithFirst(pieces);
    JoinEndsWithLast(pieces);
    assert joined[0] == pieces[0][0];
    assert joined[|joined| - 1] == last[|last| - 1];
    StripLeadingSlash(joined);
    SplitJoin(pieces);
    DecodedPathTrailingSlash([SLASH] + joined);
  }

  /** `'/'.join` of two or three parts, spelled out. */
  lemma Join2(a: seq<byte>, b: seq<byte>)
    ensures Join([a, b]) == a + [SLASH] + b
  {
    assert [a, b][1..] == [b];
  }

  lemma Join3(a: seq<byte>, b: seq<byte>, c: seq<byte>)
    ensures Join([a, b, c]) == a + [SLASH] + b + [SLASH] + c
  {
    assert [a, b, c][1..] == [b, c];
    Join2(b, c);
  }

  /** `traversal_path('/')` is `()`. */
  lemma DecodeSlash()
    ensures DecodedPath(Utf8.Encode("/")) == Ok([])
  {
    SlashByte();
    DecodedPathTrailingSlash([]);
  }

  /** The bytes of `/`. */
  lemma SlashByte()
    ensures Utf8.Encode("/") == [SLASH]
  {
  }

  /** The bytes of `/a`, `/a/b` and `/a/b/c`: slashes around the UTF-8
      bytes of each segment. */
  lemma SlashedBytes(a: string, b: string, c: string)
    ensures Utf8.Encode("/" + a) == [SLASH] + Utf8.Encode(a)
    ensures Utf8.Encode("/" + a + "/" + b) == [SLASH] + Utf8.Encode(a) + [SLASH] + Utf8.Encode(b)
    ensures Utf8.Encode("/" + a + "/" + b + "/" + c) ==
              [SLASH] + Utf8.Encode(a) + [SLASH] + Utf8.Encode(b) + [SLASH] + Utf8.Encode(c)
  {
    assert Utf8.Encode("/") == [SLASH];
    EncodeAppend("/", a);
    EncodeAppend("/" + a, "/");
    EncodeAppend("/" + a + "/", b);
    EncodeAppend("/" + a + "/" + b, "/");
    EncodeAppend("/" + a + "/" + b + "/", c);
  }

  /** A path of one, two or three slash-free, non-empty pieces, each after
      a slash, decodes as the pieces normalise. */
  lemma DecodedOne(pa: seq<byte>)
    requires SLASH !in pa && |pa| > 0
    ensures DecodedPath([SLASH] + pa) == Normalize([pa])
  {
    assert Join([pa]) == pa;
    DecodedJoin([SLASH] + pa, [pa]);
  }

  lemma DecodedTwo(pa: seq<byte>, pb: seq<byte>)
    requires SLASH !in pa && SLASH !in pb && |pa| > 0 && |pb| > 0
    ensures DecodedPath([SLASH] + pa + [SLASH] + pb) == Normalize([pa, pb])
  {
    Join2(pa, pb);
    DecodedJoin([SLASH] + pa + [SLASH] + pb, [pa, pb]);
  }

  lemma DecodedThree(pa: seq<byte>, pb: seq<byte>, pc: seq<byte>)
    requires SLASH !in pa && SLASH !in pb && SLASH !in pc && |pa| > 0 && |pc| > 0
    ensures DecodedPath([SLASH] + pa + [SLASH] + pb + [SLASH] + pc) == Normalize([pa, pb, pc])
  {
    Join3(pa, pb, pc);
    DecodedJoin([SLASH] + pa + [SLASH] + pb + [SLASH] + pc, [pa, pb, pc]);
  }

  /** Plain segments as pieces normalise to themselves. */
  lemma NormalizePlainSegments(a: string, b: string, c: string)
    requires IsPlainSegment(a) && IsPlainSegment(b) && IsPlainSegment(c)
    ensures Normalize([Utf8.Encode(a)]) == Ok([a])
    ensures Normalize([Utf8.Encode(a), Utf8.Encode(b)]) == Ok([a, b])
    ensures Normalize([Utf8.Encode(a), Utf8.Encode(b), Utf8.Encode(c)]) == Ok([a, b, c])
  {
    PlainPiece(a);
    PlainPiece(b);
    PlainPiece(c);
    NormalizePlain([Utf8.Encode(a)], [a]);
    NormalizePlain([Utf8.Encode(a), Utf8.Encode(b)], [a, b]);
    NormalizePlain([Utf8.Encode(a), Utf8.Encode(b), Utf8.Encode(c)], [a, b, c]);
  }

  /** `traversal_path('/a/b/c') == ('a', 'b', 'c')` for plain segments,
      and likewise for one and two segments. */
  lemma DecodePlain(a: string, b: string, c: string)
    requires IsPlainSegment(a) && IsPlainSegment(b) && IsPlainSegment(c)
    ensures DecodedPath(Utf8.Encode("/" + a)) == Ok([a])
    ensures DecodedPath(Utf8.Encode("/" + a + "/" + b)) == Ok([a, b])
    ensures DecodedPath(Utf8.Encode("/" + a + "/" + b + "/" + c)) == Ok([a, b, c])
  {
    SlashedBytes(a, b, c);
    PlainPiece(a);
    PlainPiece(b);
    PlainPiece(c);
    DecodedOne(Utf8.Encode(a));
    DecodedTwo(Utf8.Encode(a), Utf8.Encode(b));
    DecodedThree(Utf8.Encode(a), Utf8.Encode(b), Utf8.Encode(c));
    NormalizePlainSegments(a, b, c);
  }

  /** The pieces of `/foo//bar//baz/`. */
  lemma BytesSkipsEmpty()
    ensures Utf8.Encode("/foo//bar//baz/") ==
              [SLASH] + Utf8.Encode("foo") + [SLASH, SLASH] + Utf8.Encode("bar") + [SLASH, SLASH] + Utf8.Encode("baz") + [SLASH]
  {
    assert "/foo//bar//baz/" == "/" + "foo" + "//" + "bar" + "//" + "baz" + "/";
    EncodeSkipsEmpty();
  }

  lemma EncodeSkipsEmpty()
    ensures Utf8.Encode("/" + "foo" + "//" + "bar" + "//" + "baz" + "/") ==
              [SLASH] + Utf8.Encode("foo") + [SLASH, SLASH] + Utf8.Encode("bar") + [SLASH, SLASH] + Utf8.Encode("baz") + [SLASH]
  {
    EncodeAppend("/", "foo");
    EncodeAppend("/" + "foo", "//");
    EncodeAppend("/" + "foo" + "//", "bar");
    EncodeAppend("/" + "foo" + "//" + "bar", "//");
    EncodeAppend("/" + "foo" + "//" + "bar" + "//", "baz");
    EncodeAppend("/" + "foo" + "//" + "bar" + "//" + "baz", "/");
    assert Utf8.Encode("/") == [SLASH];
    assert Utf8.Encode("//") == [SLASH, SLASH];
  }

  /** `'/'.join` of a first part and at least one more. */
  lemma JoinFront(a: seq<byte>, rest: seq<seq<byte>>)
    requires |rest| > 0
    ensures Join([a] + rest) == a + [SLASH] + Join(rest)
  {
    assert ([a] + rest)[1..] == rest;
  }

  /** `'/'.join` of `b`, an empty part and `z`. */
  lemma JoinEmptyBetween(b: seq<byte>, z: seq<byte>)
    ensures Join([b, [], z]) == b + [SLASH, SLASH] + z
  {
    var none: seq<byte> := [];
    Join3(b, none, z);
    assert b + [SLASH] + none + [SLASH] + z == b + [SLASH, SLASH] + z;
  }

  /** `'/'.join` of `f`, `''`, `b`, `''`, `z`. */
  lemma JoinWithEmpties(f: seq<byte>, b: seq<byte>, z: seq<byte>)
    ensures Join([f, [], b, [], z]) == f + [SLASH, SLASH] + b + [SLASH, SLASH] + z
  {
    var none: seq<byte> := [];
    JoinEmptyBetween(b, z);
    JoinFront(none, [b, none, z]);
    assert [none] + [b, none, z] == [none, b, none, z];
    JoinFront(f, [none, b, none, z]);
    assert [f] + [none, b, none, z] == [f, none, b, none, z];
    assert f + [SLASH] + (none + [SLASH] + (b + [SLASH, SLASH] + z)) == f + [SLASH, SLASH] + b + [SLASH, SLASH] + z;
  }

  lemma DecodedWithEmpties(f: seq<byte>, b: seq<byte>, z: seq<byte>)
    requires SLASH !in f && SLASH !in b && SLASH !in z && |f| > 0 && |z| > 0
    ensures DecodedPath([SLASH] + f + [SLASH, SLASH] + b + [SLASH, SLASH] + z + [SLASH]) == Normalize([f, [], b, [], z])
  {
    var none: seq<byte> := [];
    var pieces := [f, none, b, none, z];
    JoinWithEmpties(f, b, z);
    assert forall k :: 0 <= k < |pieces| ==> SLASH !in pieces[k];
    DecodedJoin([SLASH] + f + [SLASH, SLASH] + b + [SLASH, SLASH] + z + [SLASH], pieces);
  }

  lemma NormalizeWithEmpties(f: seq<byte>, b: seq<byte>, z: seq<byte>, tf: string, tb: string, tz: string)
    requires IsClean(tf) && IsClean(tb) && IsClean(tz)
    requires Utf8.Decode(Unquote(f)) == Some(tf) && Utf8.Decode(Unquote(b)) == Some(tb) && Utf8.Decode(Unquote(z)) == Some(tz)
    ensures Normalize([f, [], b, [], z]) == Ok([tf, tb, tz])
  {
    var none: seq<byte> := [];
    NormalizePlain([f], [tf]);
    NormalizeSkip([f], [tf]);
    assert [f] + [none] == [f, none];
    NormalizeKeep([f, none], [tf], b, tb);
    assert [f, none] + [b] == [f, none, b];
    assert [tf] + [tb] == [tf, tb];
    NormalizeSkip([f, none, b], [tf, tb]);
    assert [f, none, b] + [none] == [f, none, b, none];
    NormalizeKeep([f, none, b, none], [tf, tb], z, tz);
    assert [f, none, b, none] + [z] == [f, none, b, none, z];
    assert [tf, tb] + [tz] == [tf, tb, tz];
  }

  /** `traversal_path('/foo//bar//baz/') == ('foo', 'bar', 'baz')`: the
      empty pieces are skipped, and so is the trailing slash. */
  lemma DecodeSkipsEmpty()
    ensures DecodedPath(Utf8.Encode("/foo//bar//baz/")) == Ok(["foo", "bar", "baz"])
  {
    BytesSkipsEmpty();
    DecodedSkipsEmptyPieces();
  }

  lemma DecodedSkipsEmptyPieces()
    ensures DecodedPath([SLASH] + Utf8.Encode("foo") + [SLASH, SLASH] + Utf8.Encode("bar") + [SLASH, SLASH] + Utf8.Encode("baz") + [SLASH]) ==
              Ok(["foo", "bar", "baz"])
  {
    DecodedWithEmptySegments("foo", "bar", "baz");
  }

  /** `/a//b//c/` decodes to `(a, b, c)` for plain segments. */
  lemma DecodedWithEmptySegments(a: string, b: string, c: string)
    requires IsPlainSegment(a) && IsPlainSegment(b) && IsPlainSegment(c)
    ensures DecodedPath([SLASH] + Utf8.Encode(a) + [SLASH, SLASH] + Utf8.Encode(b) + [SLASH, SLASH] + Utf8.Encode(c) + [SLASH]) ==
              Ok([a, b, c])
  {
    PlainPiece(a);
    PlainPiece(b);
    PlainPiece(c);
    DecodedWithEmpties(Utf8.Encode(a), Utf8.Encode(b), Utf8.Encode(c));
    NormalizeWithEmpties(Utf8.Encode(a), Utf8.Encode(b), Utf8.Encode(c), a, b, c);
  }

  /** The pieces of `/foo/bar/baz/..`. */
  lemma BytesParent()
    ensures Utf8.Encode("/foo/bar/baz/..") ==
              [SLASH] + Utf8.Encode("foo") + [SLASH] + Utf8.Encode("bar") + [SLASH] + Utf8.Encode("baz") + [SLASH] + [DOT, DOT]
  {
    assert Utf8.Encode("/") == [SLASH];
    assert Utf8.Encode("..") == [DOT, DOT];
    assert "/foo/bar/baz/.." == "/" + "foo" + "/" + "bar" + "/" + "baz" + "/" + "..";
    EncodeAppend("/", "foo");
    EncodeAppend("/" + "foo", "/");
    EncodeAppend("/" + "foo" + "/", "bar");
    EncodeAppend("/" + "foo" + "/" + "bar", "/");
    EncodeAppend("/" + "foo" + "/" + "bar" + "/", "baz");
    EncodeAppend("/" + "foo" + "/" + "bar" + "/" + "baz", "/");
    EncodeAppend("/" + "foo" + "/" + "bar" + "/" + "baz" + "/", "..");
  }

  /** The pieces of `/foo/../..`. */
  lemma BytesTooManyParents()
    ensures Utf8.Encode("/foo/../..") == [SLASH] + Utf8.Encode("foo") + [SLASH] + [DOT, DOT] + [SLASH] + [DOT, DOT]
  {
    assert Utf8.Encode("/") == [SLASH];
    assert Utf8.Encode("..") == [DOT, DOT];
    assert "/foo/../.." == "/" + "foo" + "/" + ".." + "/" + "..";
    EncodeAppend("/", "foo");
    EncodeAppend("/" + "foo", "/");
    EncodeAppend("/" + "foo" + "/", "..");
    EncodeAppend("/" + "foo" + "/" + "..", "/");
    EncodeAppend("/" + "foo" + "/" + ".." + "/", "..");
  }

  lemma DecodedFour(pa: seq<byte>, pb: seq<byte>, pc: seq<byte>, pd: seq<byte>)
    requires SLASH !in pa && SLASH !in pb && SLASH !in pc && SLASH !in pd && |pa| > 0 && |pd| > 0
    ensures DecodedPath([SLASH] + pa + [SLASH] + pb + [SLASH] + pc + [SLASH] + pd) == Normalize([pa, pb, pc, pd])
  {
    Join3(pb, pc, pd);
    assert [pa, pb, pc, pd][1..] == [pb, pc, pd];
    DecodedJoin([SLASH] + pa + [SLASH] + pb + [SLASH] + pc + [SLASH] + pd, [pa, pb, pc, pd]);
  }

  /** The shapes of `/foo/bar/baz/..` and of `/foo/../..`: slash-free
      pieces and `..` pieces after slashes. */
  lemma DecodedParentShape(f: seq<byte>, b: seq<byte>, z: seq<byte>)
    requires SLASH !in f && SLASH !in b && SLASH !in z && |f| > 0
    ensures DecodedPath([SLASH] + f + [SLASH] + b + [SLASH] + z + [SLASH] + [DOT, DOT]) == Normalize([f, b, z, [DOT, DOT]])
  {
    DecodedFour(f, b, z, [DOT, DOT]);
  }

  lemma DecodedTooManyParentsShape(f: seq<byte>)
    requires SLASH !in f && |f| > 0
    ensures DecodedPath([SLASH] + f + [SLASH] + [DOT, DOT] + [SLASH] + [DOT, DOT]) == Normalize([f, [DOT, DOT], [DOT, DOT]])
  {
    DecodedThree(f, [DOT, DOT], [DOT, DOT]);
  }

  /** Three kept pieces and a `..` leave the first two. */
  lemma NormalizeParent(f: seq<byte>, b: seq<byte>, z: seq<byte>, tf: string, tb: string, tz: string)
    requires IsClean(tf) && IsClean(tb) && IsClean(tz)
    requires Utf8.Decode(Unquote(f)) == Some(tf) && Utf8.Decode(Unquote(b)) == Some(tb) && Utf8.Decode(Unquote(z)) == Some(tz)
    ensures Normalize([f, b, z, [DOT, DOT]]) == Ok([tf, tb])
  {
    NormalizePlain([f, b, z], [tf, tb, tz]);
    NormalizePop([f, b, z], [tf, tb, tz]);
    assert [f, b, z] + [[DOT, DOT]] == [f, b, z, [DOT, DOT]];
    assert [tf, tb, tz][..2] == [tf, tb];
  }

  /** One kept piece and two `..` run out of segments to delete. */
  lemma NormalizeTooManyParents(f: seq<byte>, tf: string)
    requires IsClean(tf) && Utf8.Decode(Unquote(f)) == Some(tf)
    ensures Normalize([f, [DOT, DOT], [DOT, DOT]]) == Err(IndexError)
  {
    var up: seq<byte> := [DOT, DOT];
    var none: seq<string> := [];
    NormalizePlain([f], [tf]);
    NormalizePop([f], [tf]);
    assert [f] + [up] == [f, up];
    assert [tf][..0] == none;
    NormalizePop([f, up], none);
    assert [f, up] + [up] == [f, up, up];
  }

  /** `traversal_path('/foo/bar/baz/..') == ('foo', 'bar')`: `..` deletes
      the last kept segment. */
  lemma DecodeParent()
    ensures DecodedPath(Utf8.Encode("/foo/bar/baz/..")) == Ok(["foo", "bar"])
  {
    BytesParent();
    DecodedParentPieces();
  }

  lemma DecodedParentPieces()
    ensures DecodedPath([SLASH] + Utf8.Encode("foo") + [SLASH] + Utf8.Encode("bar") + [SLASH] + Utf8.Encode("baz") + [SLASH] + [DOT, DOT]) ==
              Ok(["foo", "bar"])
  {
    DecodedParentSegments("foo", "bar", "baz");
  }

  /** `/a/b/c/..` decodes to `(a, b)` for plain segments. */
  lemma DecodedParentSegments(a: string, b: string, c: string)
    requires IsPlainSegment(a) && IsPlainSegment(b) && IsPlainSegment(c)
    ensures DecodedPath([SLASH] + Utf8.Encode(a) + [SLASH] + Utf8.Encode(b) + [SLASH] + Utf8.Encode(c) + [SLASH] + [DOT, DOT]) ==
              Ok([a, b])
  {
    PlainPiece(a);
    PlainPiece(b);
    PlainPiece(c);
    DecodedParentShape(Utf8.Encode(a), Utf8.Encode(b), Utf8.Encode(c));
    NormalizeParent(Utf8.Encode(a), Utf8.Encode(b), Utf8.Encode(c), a, b, c);
  }

  /** `traversal_path('/foo/../..')` raises `IndexError`: the second `..`
      finds nothing left to delete. */
  lemma DecodeTooManyParents()
    ensures DecodedPath(Utf8.Encode("/foo/../..")) == Err(IndexError)
  {
    var f := Utf8.Encode("foo");
    PlainPiece("foo");
    BytesTooManyParents();
    DecodedTooManyParentsShape(f);
    NormalizeTooManyParents(f, "foo");
  }

  /** The bytes of `my%20archives`: `my`, the escape `%20`, `archives`. */
  lemma BytesEscaped()
    ensures Utf8.Encode("my%20archives") == Utf8.Encode("my") + [PERCENT, 50, 48] + Utf8.Encode("archives")
  {
    assert "my%20archives" == "my" + "%20" + "archives";
    EncodeEscaped();
  }

  lemma EncodeEscaped()
    ensures Utf8.Encode("my" + "%20" + "archives") == Utf8.Encode("my") + [PERCENT, 50, 48] + Utf8.Encode("archives")
  {
    EncodeAppend("my", "%20");
    EncodeAppend("my" + "%20", "archives");
    assert Utf8.Encode("%20") == [PERCENT, 50, 48];
  }

  /** The bytes of `my archives`: `my`, a space, `archives`. */
  lemma BytesSpace()
    ensures Utf8.Encode("my archives") == Utf8.Encode("my") + [32] + Utf8.Encode("archives")
  {
    assert "my archives" == "my" + " " + "archives";
    EncodeAppend("my", " ");
    EncodeAppend("my" + " ", "archives");
    assert Utf8.Encode(" ") == [32];
  }

  /** `%20` between two parts without `%` unquotes to a space. */
  lemma UnquoteEscape(m: seq<byte>, a: seq<byte>)
    requires PERCENT !in m && PERCENT !in a
    ensures Unquote(m + [PERCENT, 50, 48] + a) == m + [32] + a
  {
    assert m + [PERCENT, 50, 48] + a == m + ([PERCENT, 50, 48] + a);
    UnquoteAppend(m, [PERCENT, 50, 48] + a);
    UnquoteEscapeFront(a);
    assert m + ([32] + a) == m + [32] + a;
  }

  /** `%20` at the front becomes a space. */
  lemma UnquoteEscapeFront(a: seq<byte>)
    requires PERCENT !in a
    ensures Unquote([PERCENT, 50, 48] + a) == [32] + a
  {
    assert ([PERCENT, 50, 48] + a)[3..] == a;
    UnquoteNoPercent(a);
  }

  /** Neither `my` nor `archives` holds `%`. */
  lemma NoPercentInWords()
    ensures PERCENT !in Utf8.Encode("my") && PERCENT !in Utf8.Encode("archives")
  {
    EncodeAvoidsAscii("my", '%');
    EncodeAvoidsAscii("archives", '%');
  }

  /** `my%20archives` unquotes to the bytes of `my archives`. */
  lemma UnquoteSpace()
    ensures Unquote(Utf8.Encode("my%20archives")) == Utf8.Encode("my archives")
  {
    BytesEscaped();
    BytesSpace();
    NoPercentInWords();
    UnquoteEscape(Utf8.Encode("my"), Utf8.Encode("archives"));
  }

  /** The pieces of `/my%20archives/hello`. */
  lemma BytesUnquotes()
    ensures Utf8.Encode("/my%20archives/hello") == [SLASH] + Utf8.Encode("my%20archives") + [SLASH] + Utf8.Encode("hello")
  {
    assert "/my%20archives/hello" == "/" + "my%20archives" + "/" + "hello";
    assert Utf8.Encode("/") == [SLASH];
    EncodeAppend("/", "my%20archives");
    EncodeAppend("/" + "my%20archives", "/");
    EncodeAppend("/" + "my%20archives" + "/", "hello");
  }

  /** `my archives` is a segment that normalisation keeps. */
  lemma SpaceIsClean()
    ensures IsClean("my archives") && Utf8.Decode(Utf8.Encode("my archives")) == Some("my archives")
  {
    Utf8.DecodeEncode("my archives");
  }

  /** A path of two slash-free pieces that decode to clean segments
      decodes to those segments. */
  lemma DecodedTwoSegments(p: seq<byte>, q: seq<byte>, tp: string, tq: string)
    requires SLASH !in p && SLASH !in q && |p| > 0 && |q| > 0
    requires IsClean(tp) && Utf8.Decode(Unquote(p)) == Some(tp)
    requires IsClean(tq) && Utf8.Decode(Unquote(q)) == Some(tq)
    ensures DecodedPath([SLASH] + p + [SLASH] + q) == Ok([tp, tq])
  {
    DecodedTwo(p, q);
    NormalizePlain([p, q], [tp, tq]);
  }

  /** The piece `my%20archives` holds no slash and decodes to the clean
      segment `my archives`. */
  lemma EscapedPiece()
    ensures SLASH !in Utf8.Encode("my%20archives") && |Utf8.Encode("my%20archives")| > 0
    ensures IsClean("my archives") && Utf8.Decode(Unquote(Utf8.Encode("my%20archives"))) == Some("my archives")
  {
    EncodeAvoidsAscii("my%20archives", '/');
    UnquoteSpace();
    SpaceIsClean();
  }

  /** `traversal_path('/my%20archives/hello') == ('my archives', 'hello')`:
      each piece is unquoted before it is decoded. */
  lemma DecodeUnquotes()
    ensures DecodedPath(Utf8.Encode("/my%20archives/hello")) == Ok(["my archives", "hello"])
  {
    BytesUnquotes();
    DecodedUnquotePieces();
  }

  lemma DecodedUnquotePieces()
    ensures DecodedPath([SLASH] + Utf8.Encode("my%20archives") + [SLASH] + Utf8.Encode("hello")) == Ok(["my archives", "hello"])
  {
    PlainPiece("hello");
    EscapedPiece();
    DecodedTwoSegments(Utf8.Encode("my%20archives"), Utf8.Encode("hello"), "my archives", "hello");
  }

  /** `%FF` unquotes to the single byte 0xFF, which is not UTF-8. */
  lemma UnquoteNotUtf8()
    ensures Utf8.Encode("/%FF") == [SLASH, PERCENT, 70, 70]
    ensures Unquote([PERCENT, 70, 70]) == [255] && Utf8.Decode([255]).None?
  {
    assert [PERCENT, 70, 70][3..] == [];
  }

  /** `traversal_path('/%FF')` raises `TypeError`: the byte 0xFF that the
      piece unquotes to is not UTF-8. */
  lemma DecodeNotUtf8()
    ensures DecodedPath(Utf8.Encode("/%FF")) == Err(TypeError)
  {
    var p: seq<byte> := [PERCENT, 70, 70];
    var none: seq<seq<byte>> := [];
    UnquoteNotUtf8();
    assert [SLASH, PERCENT, 70, 70] == [SLASH] + p;
    DecodedOne(p);
    NormalizeSnoc(none, p);
    assert none + [p] == [p];
  }

  /** `_join_path_tuple(())` is `/`. */
  lemma JoinEmptyTuple()
    ensures JoinedPath([]) == [SLASH]
  {
    var none: seq<string> := [];
    assert QuoteAll(none) == [];
  }

  /** Quoting a tuple of two or three segments, element by element. */
  lemma QuoteAllTwo(a: string, b: string)
    ensures QuoteAll([a, b]) == [QuoteSegment(a), QuoteSegment(b)]
  {
    assert |QuoteAll([a, b])| == 2;
  }

  lemma QuoteAllThree(a: string, b: string, c: string)
    ensures QuoteAll([a, b, c]) == [QuoteSegment(a), QuoteSegment(b), QuoteSegment(c)]
  {
    assert |QuoteAll([a, b, c])| == 3;
  }

  /** Two segments that need no quoting join around one slash. */
  lemma JoinedPlainTwo(a: string, b: string)
    requires QuoteSegment(a) == Utf8.Encode(a) && QuoteSegment(b) == Utf8.Encode(b)
    ensures JoinedPath([a, b]) == Utf8.Encode(a) + [SLASH] + Utf8.Encode(b)
  {
    QuoteAllTwo(a, b);
    Join2(Utf8.Encode(a), Utf8.Encode(b));
  }

  /** After an empty first element, the joined path starts with a slash. */
  lemma JoinedPlainAbsolute(a: string, b: string)
    requires QuoteSegment(a) == Utf8.Encode(a) && QuoteSegment(b) == Utf8.Encode(b)
    ensures JoinedPath(["", a, b]) == [SLASH] + Utf8.Encode(a) + [SLASH] + Utf8.Encode(b)
  {
    var none: seq<byte> := [];
    QuoteAllThree("", a, b);
    assert QuoteSegment("") == none;
    Join3(none, Utf8.Encode(a), Utf8.Encode(b));
  }

  lemma JoinedFooBar()
    ensures JoinedPath(["foo", "bar"]) == Utf8.Encode("foo") + [SLASH] + Utf8.Encode("bar")
    ensures JoinedPath(["", "foo", "bar"]) == [SLASH] + Utf8.Encode("foo") + [SLASH] + Utf8.Encode("bar")
  {
    QuotePlainFoo();
    JoinedPlainTwo("foo", "bar");
    JoinedPlainAbsolute("foo", "bar");
  }

  /** The bytes of `foo/bar` and `/foo/bar`. */
  lemma BytesFooBar()
    ensures Utf8.Encode("foo/bar") == Utf8.Encode("foo") + [SLASH] + Utf8.Encode("bar")
  {
    assert "foo/bar" == "foo" + "/" + "bar";
    EncodeAppend("foo", "/");
    EncodeAppend("foo" + "/", "bar");
    assert Utf8.Encode("/") == [SLASH];
  }

  lemma BytesSlashFooBar()
    ensures Utf8.Encode("/foo/bar") == [SLASH] + Utf8.Encode("foo") + [SLASH] + Utf8.Encode("bar")
  {
    assert "/foo/bar" == "/" + "foo" + "/" + "bar";
    SlashedBytes("foo", "bar", "");
  }

  /** `_join_path_tuple(('foo', 'bar'))` is `foo/bar`, with no leading
      slash; `_join_path_tuple(('', 'foo', 'bar'))` is `/foo/bar`. */
  lemma JoinExamples()
    ensures JoinedPath(["foo", "bar"]) == Utf8.Encode("foo/bar")
    ensures JoinedPath(["", "foo", "bar"]) == Utf8.Encode("/foo/bar")
  {
    JoinedFooBar();
    BytesFooBar();
    BytesSlashFooBar();
  }

  /** `foo` and `bar` need no quoting. */
  lemma QuotePlainFoo()
    ensures QuoteSegment("foo") == Utf8.Encode("foo") && QuoteSegment("bar") == Utf8.Encode("bar")
  {
    assert Utf8.Encode("foo") == [102, 111, 111];
    assert Utf8.Encode("bar") == [98, 97, 114];
    assert UrlQuote([102, 111, 111]) == [102, 111, 111];
    assert UrlQuote([98, 97, 114]) == [98, 97, 114];
  }

  /** A path of three plain segments decodes to them. */
  lemma DecodedThreeSegments(a: string, b: string, c: string)
    requires IsPlainSegment(a) && IsPlainSegment(b) && IsPlainSegment(c)
    ensures DecodedPath([SLASH] + Utf8.Encode(a) + [SLASH] + Utf8.Encode(b) + [SLASH] + Utf8.Encode(c)) == Ok([a, b, c])
  {
    PlainPiece(a);
    PlainPiece(b);
    PlainPiece(c);
    DecodedThree(Utf8.Encode(a), Utf8.Encode(b), Utf8.Encode(c));
    NormalizePlainSegments(a, b, c);
  }

  /** The pieces of `/a/b/c` and of `/a/b/@@edit`. */
  lemma BytesABC()
    ensures Utf8.Encode("/a/b/c") == [SLASH] + Utf8.Encode("a") + [SLASH] + Utf8.Encode("b") + [SLASH] + Utf8.Encode("c")
  {
    assert "/a/b/c" == "/" + "a" + "/" + "b" + "/" + "c";
    SlashedBytes("a", "b", "c");
  }

  lemma BytesABEdit()
    ensures Utf8.Encode("/a/b/@@edit") == [SLASH] + Utf8.Encode("a") + [SLASH] + Utf8.Encode("b") + [SLASH] + Utf8.Encode("@@edit")
  {
    assert "/a/b/@@edit" == "/" + "a" + "/" + "b" + "/" + "@@edit";
    SlashedBytes("a", "b", "@@edit");
  }

  /** `traversal_path('/a/b/c')` and `traversal_path('/a/b/@@edit')`; both
      paths start with a slash and are neither `''` nor `/`. */
  lemma DecodeABC()
    ensures DecodedPath(Utf8.Encode("/a/b/c")) == Ok(["a", "b", "c"])
    ensures |Utf8.Encode("/a/b/c")| > 1 && Utf8.Encode("/a/b/c")[0] == SLASH
  {
    BytesABC();
    DecodedThreeSegments("a", "b", "c");
  }

  lemma DecodeABEdit()
    ensures DecodedPath(Utf8.Encode("/a/b/@@edit")) == Ok(["a", "b", "@@edit"])
    ensures |Utf8.Encode("/a/b/@@edit")| > 1
  {
    BytesABEdit();
    DecodedABEditPieces();
  }

  lemma DecodedABEditPieces()
    ensures DecodedPath([SLASH] + Utf8.Encode("a") + [SLASH] + Utf8.Encode("b") + [SLASH] + Utf8.Encode("@@edit")) ==
              Ok(["a", "b", "@@edit"])
  {
    DecodedThreeSegments("a", "b", "@@edit");
  }

  /** The pieces of `/a`, `/b`, and `/b/c`, and what the first decodes to. */
  lemma BytesVirtualRoot()
    ensures Utf8.Encode("/a") == [SLASH] + Utf8.Encode("a")
    ensures Utf8.Encode("/b") == [SLASH] + Utf8.Encode("b")
    ensures Utf8.Encode("/b/c") == [SLASH] + Utf8.Encode("b") + [SLASH] + Utf8.Encode("c")
  {
    assert "/a" == "/" + "a";
    assert "/b" == "/" + "b";
    assert "/b/c" == "/" + "b" + "/" + "c";
    SlashedBytes("a", "b", "c");
    SlashedBytes("b", "c", "c");
  }

  /** A path of one or two plain segments decodes to them. */
  lemma DecodedOneSegment(a: string)
    requires IsPlainSegment(a)
    ensures DecodedPath([SLASH] + Utf8.Encode(a)) == Ok([a])
  {
    PlainPiece(a);
    DecodedOne(Utf8.Encode(a));
    NormalizePlainSegments(a, a, a);
  }

  lemma DecodedTwoPlainSegments(a: string, b: string)
    requires IsPlainSegment(a) && IsPlainSegment(b)
    ensures DecodedPath([SLASH] + Utf8.Encode(a) + [SLASH] + Utf8.Encode(b)) == Ok([a, b])
  {
    PlainPiece(a);
    PlainPiece(b);
    DecodedTwo(Utf8.Encode(a), Utf8.Encode(b));
    NormalizePlainSegments(a, b, b);
  }

  /** Two byte strings, each a slash and a segment or two, run together. */
  lemma Concat2(a: seq<byte>, b: seq<byte>)
    ensures [SLASH] + a + ([SLASH] + b) == [SLASH] + a + [SLASH] + b
  {
  }

  lemma Concat3(a: seq<byte>, b: seq<byte>, c: seq<byte>)
    ensures [SLASH] + a + ([SLASH] + b + [SLASH] + c) == [SLASH] + a + [SLASH] + b + [SLASH] + c
  {
  }

  /** With the virtual-root key `/a`: `/a` decodes to `('a',)`, and `/a`
      followed by `/b` or by `/b/c` decodes as one path. */
  lemma DecodeVirtualRootKey()
    ensures DecodedPath(Utf8.Encode("/a")) == Ok(["a"])
  {
    BytesVirtualRoot();
    DecodedOneSegment("a");
  }

  lemma DecodeVirtualRootPath()
    ensures DecodedPath(Utf8.Encode("/a") + Utf8.Encode("/b")) == Ok(["a", "b"]) && |Utf8.Encode("/b")| > 1
  {
    BytesVirtualRoot();
    Concat2(Utf8.Encode("a"), Utf8.Encode("b"));
    DecodedTwoPlainSegments("a", "b");
  }

  lemma DecodeVirtualRootLongerPath()
    ensures DecodedPath(Utf8.Encode("/a") + Utf8.Encode("/b/c")) == Ok(["a", "b", "c"]) && |Utf8.Encode("/b/c")| > 1
  {
    BytesVirtualRoot();
    Concat3(Utf8.Encode("a"), Utf8.Encode("b"), Utf8.Encode("c"));
    DecodedThreeSegments("a", "b", "c");
  }

  /** A graph holding the objects root (0), `a` (1) and `b` (2): the root
      maps `a` to `a`, `a` maps `b` to `b`, and `b` has a `__getitem__`
      that does not find `c`. */
  ghost predicate IsChainAB(g: Graph)
  {
    g.Valid() && 0 in g.nodes && 1 in g.nodes && 2 in g.nodes &&
    g.nodes[0].parent.None? && g.nodes[1].parent == Some(0) && g.nodes[2].parent == Some(1) &&
    Lookup(g, 0, "a") == Some(1) && Lookup(g, 1, "b") == Some(2) && Lookup(g, 2, "c") == None
  }

  /** Such a graph, written out. */
  function Chain3(): Graph
  {
    Graph(map[0 := Node(None, None, Some(map["a" := 1])),
              1 := Node(Some("a"), Some(0), Some(map["b" := 2])),
              2 := Node(Some("b"), Some(1), Some(map[]))],
          map[0 := 0, 1 := 1, 2 := 2])
  }

  lemma Chain3IsChainAB()
    ensures IsChainAB(Chain3())
  {
  }

  /** One turn of the walk: a segment that is not a view name and that
      the object's `__getitem__` finds moves on to the child. */
  lemma WalkDescends(g: Graph, w: Walker, i: nat, ob: NodeId, vroot: NodeId, next: NodeId)
    requires g.Valid() && ob in g.nodes && i < |w.vpath| && w.vrootIdx >= -1
    requires !IsViewMarker(w.vpath[i]) && Lookup(g, ob, w.vpath[i]) == Some(next)
    ensures Walk(g, w, i, ob, vroot) == Walk(g, w, i + 1, next, if i == w.vrootIdx then next else vroot)
  {
  }

  /** The walk stops at a segment the object's `__getitem__` does not
      find, or at a view name. */
  lemma WalkStopsAtMissing(g: Graph, w: Walker, i: nat, ob: NodeId, vroot: NodeId)
    requires g.Valid() && ob in g.nodes && i < |w.vpath| && w.vrootIdx >= -1
    requires !IsViewMarker(w.vpath[i]) && Lookup(g, ob, w.vpath[i]).None?
    ensures Walk(g, w, i, ob, vroot) == Stopped(w, i, ob, vroot, w.vpath[i])
  {
  }

  lemma WalkStopsAtView(g: Graph, w: Walker, i: nat, ob: NodeId, vroot: NodeId)
    requires g.Valid() && ob in g.nodes && i < |w.vpath| && w.vrootIdx >= -1
    requires IsViewMarker(w.vpath[i])
    ensures Walk(g, w, i, ob, vroot) == Stopped(w, i, ob, vroot, w.vpath[i][2..])
  {
  }

  /** The walks of the examples below, turn by turn. */
  lemma WalkMissingChild(g: Graph)
    requires IsChainAB(g)
    ensures Walk(g, Walker(0, ["a", "b", "c"], -1, [], []), 0, 0, 0) == TraversalResult(2, "c", [], ["a", "b"], 0, [], 0)
  {
    var w := Walker(0, ["a", "b", "c"], -1, [], []);
    WalkDescends(g, w, 0, 0, 0, 1);
    WalkDescends(g, w, 1, 1, 0, 2);
    WalkStopsAtMissing(g, w, 2, 2, 0);
    assert w.vpath[..2] == ["a", "b"];
  }

  lemma WalkViewMarker(g: Graph)
    requires IsChainAB(g)
    ensures Walk(g, Walker(0, ["a", "b", "@@edit"], -1, [], []), 0, 0, 0) == TraversalResult(2, "edit", [], ["a", "b"], 0, [], 0)
  {
    var w := Walker(0, ["a", "b", "@@edit"], -1, [], []);
    WalkDescends(g, w, 0, 0, 0, 1);
    WalkDescends(g, w, 1, 1, 0, 2);
    WalkStopsAtView(g, w, 2, 2, 0);
    assert w.vpath[..2] == ["a", "b"];
  }

  lemma WalkVirtualRootEnd(g: Graph)
    requires IsChainAB(g)
    ensures Walk(g, Walker(0, ["a", "b"], 0, ["a"], []), 0, 0, 0) == TraversalResult(2, "", [], ["a", "b"], 1, ["a"], 0)
  {
    var w := Walker(0, ["a", "b"], 0, ["a"], []);
    WalkDescends(g, w, 0, 0, 0, 1);
    WalkDescends(g, w, 1, 1, 1, 2);
  }

  lemma WalkVirtualRootStop(g: Graph)
    requires IsChainAB(g)
    ensures Walk(g, Walker(0, ["a", "b", "c"], 0, ["a"], []), 0, 0, 0) == TraversalResult(2, "c", [], ["a", "b", "c"], 1, ["a"], 0)
  {
    var w := Walker(0, ["a", "b", "c"], 0, ["a"], []);
    WalkDescends(g, w, 0, 0, 0, 1);
    WalkDescends(g, w, 1, 1, 1, 2);
    WalkStopsAtMissing(g, w, 2, 2, 1);
    assert w.vpath[..3] == w.vpath;
  }

  /** Traversing `/a/b/c` stops at `b` with `c` as view name,
      `subpath == ()` and `traversed == ('a', 'b')`. */
  lemma TraverseMissingChild(g: Graph)
    requires IsChainAB(g)
    ensures TraverserCall(g, 0, Environ(None, Some(Utf8.Encode("/a/b/c")), None)) ==
              Ok(TraversalResult(2, "c", [], ["a", "b"], 0, [], 0))
  {
    DecodeABC();
    PlainRequest(g, 0, ["a", "b", "c"], Utf8.Encode("/a/b/c"));
    WalkMissingChild(g);
  }

  /** Traversing `/a/b/@@edit` stops at `b` with `edit` as view name. */
  lemma TraverseViewMarker(g: Graph)
    requires IsChainAB(g)
    ensures TraverserCall(g, 0, Environ(None, Some(Utf8.Encode("/a/b/@@edit")), None)) ==
              Ok(TraversalResult(2, "edit", [], ["a", "b"], 0, [], 0))
  {
    DecodeABEdit();
    PlainRequest(g, 0, ["a", "b", "@@edit"], Utf8.Encode("/a/b/@@edit"));
    WalkViewMarker(g);
  }

  /** A request with the virtual-root key `v` and `PATH_INFO` `p` walks
      the concatenation `v + p`, with `vroot_idx` one less than the length
      of the decoded key. */
  lemma VirtualRootRequest(g: Graph, root: NodeId, v: seq<byte>, p: seq<byte>, vrootPath: seq<string>, vt: seq<string>)
    requires g.Valid() && root in g.nodes && p != []
    requires DecodedPath(v) == Ok(vrootPath) && DecodedPath(v + p) == Ok(vt)
    ensures TraverserCall(g, root, Environ(None, Some(p), Some(v))) ==
              Ok(Walk(g, Walker(root, vt, |vrootPath| - 1, vrootPath, []), 0, root, root))
  {
    var env := Environ(None, Some(p), Some(v));
    PathInfoRequest(p, v);
    VirtualPrefix(p, v, vrootPath);
    CallWalks(g, root, env, p, [], vrootPath, v + p, vt);
  }

  /** Without a route match, a non-empty `PATH_INFO` is the path, with an
      empty subpath. */
  lemma PathInfoRequest(p: seq<byte>, v: seq<byte>)
    requires p != []
    ensures RequestPath(Environ(None, Some(p), Some(v))) == Ok((p, []))
  {
  }

  /** A virtual-root key that decodes is prefixed to the path. */
  lemma VirtualPrefix(p: seq<byte>, v: seq<byte>, vrootPath: seq<string>)
    requires DecodedPath(v) == Ok(vrootPath)
    ensures VirtualPath(Environ(None, Some(p), Some(v)), p) == Ok((vrootPath, v + p))
  {
  }

  /** With the virtual-root key `/a`, `PATH_INFO` `/b` is walked as
      `/a/b`: the context is `b`, the virtual root is `a` and the virtual
      root path is `('a',)`. */
  lemma TraverseVirtualRoot(g: Graph)
    requires IsChainAB(g)
    ensures TraverserCall(g, 0, Environ(None, Some(Utf8.Encode("/b")), Some(Utf8.Encode("/a")))) ==
              Ok(TraversalResult(2, "", [], ["a", "b"], 1, ["a"], 0))
  {
    DecodeVirtualRootKey();
    DecodeVirtualRootPath();
    VirtualRootRequest(g, 0, Utf8.Encode("/a"), Utf8.Encode("/b"), ["a"], ["a", "b"]);
    WalkVirtualRootEnd(g);
  }

  /** With the virtual-root key `/a`, `PATH_INFO` `/b/c` stops at `b`,
      and `traversed` is the slice `vpath_tuple[:vroot_idx+i+1]` with
      `vroot_idx == 0` and `i == 2`: all three segments, `c` included. */
  lemma TraverseVirtualRootStop(g: Graph)
    requires IsChainAB(g)
    ensures TraverserCall(g, 0, Environ(None, Some(Utf8.Encode("/b/c")), Some(Utf8.Encode("/a")))) ==
              Ok(TraversalResult(2, "c", [], ["a", "b", "c"], 1, ["a"], 0))
  {
    DecodeVirtualRootKey();
    DecodeVirtualRootLongerPath();
    VirtualRootRequest(g, 0, Utf8.Encode("/a"), Utf8.Encode("/b/c"), ["a"], ["a", "b", "c"]);
    WalkVirtualRootStop(g);
  }

  /** `find_root` of `b`, of `a` and of the root is the root. */
  lemma FindRootExamples(g: Graph)
    requires IsChainAB(g)
    ensures Root(g, 2) == 0 && Root(g, 1) == 0 && Root(g, 0) == 0
  {
    assert Lineage(g, 0) == [0];
    assert Lineage(g, 1) == [1, 0];
    assert Lineage(g, 2) == [2, 1, 0];
  }

  /** `find_model(a, 'b')` is `b`. */
  lemma FindModelChild(g: Graph)
    requires IsChainAB(g)
    ensures FindModel(g, 1, Segments(["b"])) == Ok(2)
  {
    assert Descend(g, 1, ["b"]) == Some(2) by {
      assert ["b"][1..] == [];
    }
    FindModelRelative(g, 1, ["b"]);
  }

  /** `find_model(a, '/a/b/c')` starts at the root and raises `KeyError`
      for `c`. */
  lemma FindModelMissing(g: Graph)
    requires IsChainAB(g)
    ensures FindModel(g, 1, Str(Utf8.Encode("/a/b/c"))) == Err(KeyError("c"))
  {
    var p := Utf8.Encode("/a/b/c");
    DecodeABC();
    AbsoluteStart(g, 1, p);
    FindRootExamples(g);
    TraverseMissingChild(g);
  }

  /** `traverse` with a path string that starts with a slash begins at the
      root of the model's lineage. */
  lemma AbsoluteStart(g: Graph, model: NodeId, p: seq<byte>)
    requires g.Valid() && model in g.nodes && |p| > 0 && p[0] == SLASH
    ensures Traverse(g, model, Str(p)) == TraverserCall(g, Root(g, model), Environ(None, Some(p), None))
  {
  }
}
