/** Path strings and path tuples (repoze/bfg/traversal.py): decoding a
    `PATH_INFO`-style byte string into a tuple of text segments
    (`traversal_path`), quoting a segment with a memo table
    (`quote_path_segment` and `_segment_cache`) and joining quoted segments
    back into a path string (`_join_path_tuple`). */
module PathSegments {
  import opened Wrappers
  import opened ByteStrings
  import opened UrlQuoting
  import Utf8

  /** The exceptions the traversal core lets escape: `IndexError` from
      `del clean[-1]` on an empty list, the `TypeError` raised for a
      segment that is not UTF-8, and the `KeyError` of `find_model`. */
  datatype Fault = IndexError | TypeError | KeyError(name: string)

  /** A decoded segment that normalisation keeps: not empty, not `.`, not `..`. */
  predicate IsClean(t: string)
  {
    t != "" && t != "." && t != ".."
  }

  /** A view-marker segment: its first two characters are `@@`. */
  predicate IsViewMarker(t: string)
  {
    |t| >= 2 && t[..2] == "@@"
  }

  /** One turn of the loop in `traversal_path`: the raw piece is unquoted,
      empty and `.` pieces are skipped, `..` deletes the last kept segment,
      anything else is decoded from UTF-8 and kept. */
  function Step(clean: seq<string>, raw: seq<byte>): Result<seq<string>, Fault>
  {
    var segment := Unquote(raw);
    if segment == [] || segment == [DOT] then Ok(clean)
    else if segment == [DOT, DOT] then
      if |clean| == 0 then Err(IndexError) else Ok(clean[..|clean| - 1])
    else match Utf8.Decode(segment)
      case None => Err(TypeError)
      case Some(t) => Ok(clean + [t])
  }

  /** The pieces processed left to right; the first failing step decides the
      outcome. */
  function Normalize(pieces: seq<seq<byte>>): Result<seq<string>, Fault>
    decreases |pieces|
  {
    if |pieces| == 0 then Ok([])
    else match Normalize(pieces[..|pieces| - 1])
      case Err(e) => Err(e)
      case Ok(clean) => Step(clean, pieces[|pieces| - 1])
  }

  /** What `traversal_path(path)` returns or raises. */
  function DecodedPath(path: seq<byte>): Result<seq<string>, Fault>
  {
    Normalize(Split(LStrip(RStrip(path))))
  }

  /** A trailing slash does not change what a path decodes to, and `/`
      and `''` both decode to the empty tuple. */
  lemma DecodedPathTrailingSlash(path: seq<byte>)
    ensures DecodedPath(path + [SLASH]) == DecodedPath(path)
    ensures DecodedPath([]) == Ok([]) && DecodedPath([SLASH]) == Ok([])
  {
    assert (path + [SLASH])[..|path|] == path;
    assert RStrip([SLASH]) == [];
    assert Split([]) == [[]];
    assert [[]][..0] == Split([])[..0];
  }

  /** `traversal_path`: strips the slashes at both ends, splits on `/` and
      runs the normalisation loop over a list that it appends to and
      deletes from. */
  method TraversalPath(path: seq<byte>) returns (r: Result<seq<string>, Fault>)
    ensures r == DecodedPath(path)
  {
    var pieces := Split(LStrip(RStrip(path)));
    var clean: seq<string> := [];
    var k := 0;
    while k < |pieces|
      invariant 0 <= k <= |pieces|
      invariant Normalize(pieces[..k]) == Ok(clean)
    {
      NormalizeNext(pieces, k, clean);
      var segment := Unquote(pieces[k]);
      if segment == [] || segment == [DOT] {
      } else if segment == [DOT, DOT] {
        if |clean| == 0 {
          return Err(IndexError);
        }
        clean := clean[..|clean| - 1];
      } else {
        var decoded := Utf8.Decode(segment);
        if decoded.None? {
          return Err(TypeError);
        }
        clean := clean + [decoded.value];
      }
      k := k + 1;
    }
    assert pieces[..k] == pieces;
    r := Ok(clean);
  }

  /** One more turn of the loop: the next piece is one more step, and a
      step that fails decides the outcome for all the pieces. */
  lemma NormalizeNext(pieces: seq<seq<byte>>, k: nat, clean: seq<string>)
    requires k < |pieces| && Normalize(pieces[..k]) == Ok(clean)
    ensures Normalize(pieces[..k + 1]) == Step(clean, pieces[k])
    ensures Step(clean, pieces[k]).Err? ==> Normalize(pieces) == Step(clean, pieces[k])
  {
    assert pieces[..k + 1][..k] == pieces[..k];
    if Step(clean, pieces[k]).Err? {
      NormalizeErrorPersists(pieces, k + 1);
    }
  }

  /** Once a prefix of the pieces fails, the whole sequence fails the same
      way. */
  lemma {:induction false} NormalizeErrorPersists(pieces: seq<seq<byte>>, k: nat)
    requires k <= |pieces| && Normalize(pieces[..k]).Err?
    ensures Normalize(pieces) == Normalize(pieces[..k])
    decreases |pieces| - k
  {
    if k < |pieces| {
      assert pieces[..|pieces| - 1][..k] == pieces[..k];
      NormalizeErrorPersists(pieces[..|pieces| - 1], k);
    } else {
      assert pieces[..k] == pieces;
    }
  }

  /** Empty pieces change nothing: appended, they are skipped. */
  lemma {:induction false} NormalizeDropsEmpties(pieces: seq<seq<byte>>, empties: seq<seq<byte>>)
    requires forall k :: 0 <= k < |empties| ==> empties[k] == []
    ensures Normalize(pieces + empties) == Normalize(pieces)
    decreases |empties|
  {
    if |empties| == 0 {
      assert pieces + empties == pieces;
    } else {
      var n := |empties| - 1;
      NormalizeDropsEmpties(pieces, empties[..n]);
      assert (pieces + empties)[..|pieces + empties| - 1] == pieces + empties[..n];
      assert (pieces + empties)[|pieces + empties| - 1] == [];
    }
  }

  /** Pieces that normalise to nothing leave the pieces after them to
      normalise on their own. */
  lemma {:induction false} NormalizeAfterNothing(first: seq<seq<byte>>, pieces: seq<seq<byte>>)
    requires Normalize(first) == Ok([])
    ensures Normalize(first + pieces) == Normalize(pieces)
    decreases |pieces|
  {
    if |pieces| == 0 {
      assert first + pieces == first;
    } else {
      var n := |pieces| - 1;
      NormalizeAfterNothing(first, pieces[..n]);
      AppendLast(first, pieces);
      SameLastStep(first + pieces, pieces);
    }
  }

  /** Dropping the last element of `a + b`, for a non-empty `b`, drops
      the last element of `b`. */
  lemma AppendLast(a: seq<seq<byte>>, b: seq<seq<byte>>)
    requires |b| > 0
    ensures (a + b)[..|a + b| - 1] == a + b[..|b| - 1]
    ensures (a + b)[|a + b| - 1] == b[|b| - 1]
  {
  }

  /** Two non-empty lists of pieces with the same last piece, whose
      fronts normalise alike, normalise alike. */
  lemma SameLastStep(p: seq<seq<byte>>, q: seq<seq<byte>>)
    requires |p| > 0 && |q| > 0 && p[|p| - 1] == q[|q| - 1]
    requires Normalize(p[..|p| - 1]) == Normalize(q[..|q| - 1])
    ensures Normalize(p) == Normalize(q)
  {
  }

  /** Normalising `b` from a non-empty list only works above that list:
      when `b` alone normalises to `y`, `a + b` normalises to the
      segments of `a` followed by `y`. */
  lemma {:induction false} NormalizeConcat(a: seq<seq<byte>>, b: seq<seq<byte>>)
    requires Normalize(a).Ok? && Normalize(b).Ok?
    ensures Normalize(a + b) == Ok(Normalize(a).value + Normalize(b).value)
    decreases |b|
  {
    if |b| == 0 {
      assert a + b == a;
      assert Normalize(a).value + [] == Normalize(a).value;
    } else {
      var n := |b| - 1;
      NormalizeConcat(a, b[..n]);
      assert (a + b)[..|a + b| - 1] == a + b[..n];
      assert (a + b)[|a + b| - 1] == b[n];
      StepAbove(Normalize(a).value, Normalize(b[..n]).value, b[n]);
    }
  }

  /** A step that succeeds on `y` does the same above `x`. */
  lemma StepAbove(x: seq<string>, y: seq<string>, raw: seq<byte>)
    requires Step(y, raw).Ok?
    ensures Step(x + y, raw) == Ok(x + Step(y, raw).value)
  {
    var segment := Unquote(raw);
    if segment == [DOT, DOT] {
      assert (x + y)[..|x + y| - 1] == x + y[..|y| - 1];
    } else if segment != [] && segment != [DOT] {
      assert (x + y) + [Utf8.Decode(segment).value] == x + (y + [Utf8.Decode(segment).value]);
    }
  }

  /** The pieces of a string of slashes normalise to nothing. */
  lemma SlashesNormalizeToNothing(s: seq<byte>)
    requires forall k :: 0 <= k < |s| ==> s[k] == SLASH
    ensures Normalize(Split(s)) == Ok([])
  {
    var e := Split(s);
    SplitSlashes(s);
    NormalizeDropsEmpties([], e);
    assert [] + e == e;
  }

  /** Leading slashes only add empty pieces in front. */
  lemma LeadingSlashes(pre: seq<byte>, l: seq<byte>)
    requires |pre| > 0 && forall k :: 0 <= k < |pre| ==> pre[k] == SLASH
    ensures Normalize(Split(pre + l)) == Normalize(Split(l))
  {
    var front := pre[..|pre| - 1];
    SplitAfterSlashEnd(pre, l);
    SlashesNormalizeToNothing(front);
    NormalizeAfterNothing(Split(front), Split(l));
  }

  /** Trailing slashes only add empty pieces at the end. */
  lemma TrailingSlashes(q: seq<byte>, post: seq<byte>)
    requires |post| > 0 && forall k :: 0 <= k < |post| ==> post[k] == SLASH
    ensures Normalize(Split(q + post)) == Normalize(Split(q))
  {
    SplitBeforeSlashStart(q, post);
    SplitSlashes(post[1..]);
    NormalizeDropsEmpties(Split(q), Split(post[1..]));
  }

  lemma SplitAfterSlashEnd(pre: seq<byte>, l: seq<byte>)
    requires |pre| > 0 && pre[|pre| - 1] == SLASH
    ensures Split(pre + l) == Split(pre[..|pre| - 1]) + Split(l)
  {
    assert pre + l == pre[..|pre| - 1] + [SLASH] + l;
    SplitAtSlash(pre[..|pre| - 1], l);
  }

  lemma SplitBeforeSlashStart(q: seq<byte>, post: seq<byte>)
    requires |post| > 0 && post[0] == SLASH
    ensures Split(q + post) == Split(q) + Split(post[1..])
  {
    assert q + post == q + [SLASH] + post[1..];
    SplitAtSlash(q, post[1..]);
  }

  lemma StripFront(q: seq<byte>)
    ensures Normalize(Split(LStrip(q))) == Normalize(Split(q))
  {
    var l := LStrip(q);
    LStripIsSuffix(q);
    if |l| < |q| {
      var pre := q[..|q| - |l|];
      assert q == pre + l;
      LeadingSlashes(pre, l);
    }
  }

  lemma StripBack(path: seq<byte>)
    ensures Normalize(Split(RStrip(path))) == Normalize(Split(path))
  {
    var q := RStrip(path);
    RStripIsPrefix(path);
    if |q| < |path| {
      var post := path[|q|..];
      assert path == q + post;
      TrailingSlashes(q, post);
    }
  }

  /** Stripping the slashes at the ends changes nothing: they only add
      empty pieces, which are skipped. */
  lemma DecodedPathUnstripped(path: seq<byte>)
    ensures DecodedPath(path) == Normalize(Split(path))
  {
    StripFront(RStrip(path));
    StripBack(path);
  }

  /** Decoding a string followed by a path that is empty or starts with
      `/` gives the first string's segments followed by the path's: the
      slash keeps the two apart, and a `..` in the path that decodes on
      its own never reaches the segments in front of it. */
  lemma DecodedPathConcat(v: seq<byte>, path: seq<byte>)
    requires path == [] || path[0] == SLASH
    requires DecodedPath(v).Ok? && DecodedPath(path).Ok?
    ensures DecodedPath(v + path) == Ok(DecodedPath(v).value + DecodedPath(path).value)
  {
    if path == [] {
      DecodedPathTrailingSlash([]);
      EmptyPathAdds(v, path);
    } else {
      AbsolutePieces(path);
      AfterSlashPieces(v, path);
      DecodedPathUnstripped(v);
      NormalizeConcat(Split(v), Split(path[1..]));
    }
  }

  lemma EmptyPathAdds(v: seq<byte>, path: seq<byte>)
    requires |path| == 0 && DecodedPath(v).Ok? && DecodedPath(path) == Ok([])
    ensures DecodedPath(v + path) == Ok(DecodedPath(v).value + DecodedPath(path).value)
  {
    assert v + path == v;
    assert DecodedPath(v).value + [] == DecodedPath(v).value;
  }

  /** A string followed by a path starting with `/` decodes as the pieces
      of the string followed by the pieces after that slash. */
  lemma AfterSlashPieces(v: seq<byte>, path: seq<byte>)
    requires |path| > 0 && path[0] == SLASH
    ensures DecodedPath(v + path) == Normalize(Split(v) + Split(path[1..]))
  {
    SplitBeforeSlashStart(v, path);
    DecodedPathUnstripped(v + path);
  }

  /** A path starting with `/` decodes as the pieces after that slash. */
  lemma AbsolutePieces(path: seq<byte>)
    requires |path| > 0 && path[0] == SLASH
    ensures DecodedPath(path) == Normalize(Split(path[1..]))
  {
    SplitBeforeSlashStart([], path);
    assert [] + path == path;
    DecodedPathUnstripped(path);
    SlashesNormalizeToNothing([]);
    NormalizeAfterNothing(Split([]), Split(path[1..]));
  }

  /** A byte string that decodes and is neither empty, `.` nor `..` decodes
      to a clean segment. */
  lemma DecodedIsClean(segment: seq<byte>)
    requires segment != [] && segment != [DOT] && segment != [DOT, DOT]
    requires Utf8.Decode(segment).Some?
    ensures IsClean(Utf8.Decode(segment).value)
  {
    var t := Utf8.Decode(segment).value;
    Utf8.EncodeDecode(segment);
    assert Utf8.Encode(".") == [DOT];
    assert Utf8.Encode("..") == [DOT, DOT];
  }

  /** Normalisation never keeps an empty, `.` or `..` segment. */
  lemma {:induction false} NormalizeIsClean(pieces: seq<seq<byte>>)
    requires Normalize(pieces).Ok?
    ensures forall k :: 0 <= k < |Normalize(pieces).value| ==> IsClean(Normalize(pieces).value[k])
    decreases |pieces|
  {
    if |pieces| > 0 {
      var init := pieces[..|pieces| - 1];
      NormalizeIsClean(init);
      var segment := Unquote(pieces[|pieces| - 1]);
      if segment != [] && segment != [DOT] && segment != [DOT, DOT] {
        DecodedIsClean(segment);
      }
    }
  }

  /** The tuple `traversal_path` returns never holds `''`, `'.'` or `'..'`. */
  lemma DecodedPathIsClean(path: seq<byte>)
    requires DecodedPath(path).Ok?
    ensures forall k :: 0 <= k < |DecodedPath(path).value| ==> IsClean(DecodedPath(path).value[k])
  {
    NormalizeIsClean(Split(LStrip(RStrip(path))));
  }

  /** When normalisation fails, it fails at one piece: all pieces before it
      normalise, and that piece is either a `..` arriving when nothing is
      kept (`IndexError`) or a piece that is not UTF-8 (`TypeError`). */
  lemma {:induction false} NormalizeFailsAt(pieces: seq<seq<byte>>) returns (k: nat)
    requires Normalize(pieces).Err?
    ensures k < |pieces| && Normalize(pieces[..k]).Ok?
    ensures Step(Normalize(pieces[..k]).value, pieces[k]) == Normalize(pieces)
    ensures Normalize(pieces) == Err(IndexError) ==>
              Unquote(pieces[k]) == [DOT, DOT] && Normalize(pieces[..k]).value == []
    ensures Normalize(pieces) == Err(TypeError) ==>
              Unquote(pieces[k]) !in {[], [DOT], [DOT, DOT]} && Utf8.Decode(Unquote(pieces[k])).None?
    ensures Normalize(pieces) != Err(IndexError) ==> Normalize(pieces) == Err(TypeError)
    decreases |pieces|
  {
    var init := pieces[..|pieces| - 1];
    if Normalize(init).Err? {
      k := NormalizeFailsAt(init);
      assert pieces[..k] == init[..k];
    } else {
      k := |pieces| - 1;
    }
  }

  /** Pieces that all unquote to decodable, clean segments normalise to
      exactly those segments, in order. */
  lemma {:induction false} NormalizePlain(pieces: seq<seq<byte>>, segments: seq<string>)
    requires |pieces| == |segments|
    requires forall k :: 0 <= k < |pieces| ==> IsClean(segments[k]) && Utf8.Decode(Unquote(pieces[k])) == Some(segments[k])
    ensures Normalize(pieces) == Ok(segments)
    decreases |pieces|
  {
    if |pieces| > 0 {
      var n := |pieces| - 1;
      NormalizePlain(pieces[..n], segments[..n]);
      CleanPieceKept(segments[..n], pieces[n], segments[n]);
      assert segments[..n] + [segments[n]] == segments;
    }
  }

  /** A piece that unquotes to the UTF-8 encoding of a clean segment is
      kept, whatever was kept before it. */
  lemma CleanPieceKept(clean: seq<string>, raw: seq<byte>, t: string)
    requires IsClean(t) && Utf8.Decode(Unquote(raw)) == Some(t)
    ensures Step(clean, raw) == Ok(clean + [t])
  {
    var segment := Unquote(raw);
    assert segment != [] && segment != [DOT] && segment != [DOT, DOT] by {
      Utf8.DecodeEncode(".");
      Utf8.DecodeEncode("..");
      assert Utf8.Encode(".") == [DOT];
      assert Utf8.Encode("..") == [DOT, DOT];
    }
  }

  /** `quote_path_segment` for a text segment: its UTF-8 encoding, quoted.
      The result holds no slash, and unquoting and decoding it gives the
      segment back. */
  function QuoteSegment(t: string): (r: seq<byte>)
    ensures SLASH !in r
    ensures (|r| == 0) == (|t| == 0)
    ensures Utf8.Decode(Unquote(r)) == Some(t)
  {
    UnquoteUrlQuote(Utf8.Encode(t));
    Utf8.DecodeEncode(t);
    UrlQuote(Utf8.Encode(t))
  }

  /** The list comprehension `[quote_path_segment(x) for x in t]`. */
  function QuoteAll(t: seq<string>): (r: seq<seq<byte>>)
    ensures |r| == |t|
    ensures forall k :: 0 <= k < |t| ==> r[k] == QuoteSegment(t[k])
    decreases |t|
  {
    if |t| == 0 then [] else [QuoteSegment(t[0])] + QuoteAll(t[1..])
  }

  /** `_join_path_tuple(t)`: the quoted segments joined by `/`, or `/` when
      that join is empty (the empty tuple, or the tuple `('',)`).  The same
      expression is the `*traverse` join in `ModelGraphTraverser.__call__`. */
  function JoinedPath(t: seq<string>): (r: seq<byte>)
    ensures |r| > 0
  {
    var joined := Join(QuoteAll(t));
    if joined == [] then [SLASH] else joined
  }

  /** A tuple whose first element is empty, as `model_path_tuple` builds
      for a root named `None` or `''`, joins to a path starting with `/`. */
  lemma JoinedStartsWithSlash(t: seq<string>)
    requires |t| > 0 && t[0] == ""
    ensures JoinedPath(t)[0] == SLASH
  {
    var q := QuoteAll(t);
    assert q[0] == QuoteSegment("") == [];
    if |t| > 1 {
      assert Join(q) == [] + [SLASH] + Join(q[1..]);
    }
  }

  /** The join of an absolute tuple `('',) + segments` starts with a slash,
      and is exactly `/` when there are no segments. */
  lemma JoinedAbsolute(segments: seq<string>)
    requires forall k :: 0 <= k < |segments| ==> IsClean(segments[k])
    ensures JoinedPath([""] + segments)[0] == SLASH
    ensures JoinedPath([""] + segments) == [SLASH] <==> segments == []
  {
    var q := QuoteAll([""] + segments);
    assert q[0] == [];
    if |segments| > 0 {
      assert q == [[]] + q[1..];
      assert Join(q) == [SLASH] + Join(q[1..]);
      assert q[1..][0] == QuoteSegment(segments[0]);
      JoinStartsWithFirst(q[1..]);
    }
  }

  lemma JoinStartsWithFirst(parts: seq<seq<byte>>)
    requires |parts| > 0 && |parts[0]| > 0
    ensures |Join(parts)| >= |parts[0]| && Join(parts)[..|parts[0]|] == parts[0]
  {
  }

  lemma {:induction false} JoinEndsWithLast(parts: seq<seq<byte>>)
    requires |parts| > 0 && |parts[|parts| - 1]| > 0
    ensures |Join(parts)| >= |parts[|parts| - 1]|
    ensures Join(parts)[|Join(parts)| - |parts[|parts| - 1]|..] == parts[|parts| - 1]
    decreases |parts|
  {
    if |parts| > 1 {
      JoinEndsWithLast(parts[1..]);
    }
  }

  /** Decoding a joined tuple of clean segments gives the segments back:
      the slashes at the ends are stripped, splitting recovers the quoted
      segments, and each unquotes and decodes to itself. */
  lemma JoinedRoundTrip(segments: seq<string>)
    requires |segments| > 0
    requires forall k :: 0 <= k < |segments| ==> IsClean(segments[k])
    ensures DecodedPath(Join(QuoteAll(segments))) == Ok(segments)
  {
    var q := QuoteAll(segments);
    forall k | 0 <= k < |q|
      ensures SLASH !in q[k] && |q[k]| > 0
      ensures Utf8.Decode(Unquote(q[k])) == Some(segments[k])
    {
      assert q[k] == QuoteSegment(segments[k]);
    }
    JoinKeepsEnds(q);
    SplitJoin(q);
    NormalizePlain(q, segments);
  }

  /** A join of non-empty, slash-free parts neither starts nor ends with a
      slash, so stripping leaves it unchanged. */
  lemma JoinKeepsEnds(parts: seq<seq<byte>>)
    requires |parts| > 0
    requires forall k :: 0 <= k < |parts| ==> SLASH !in parts[k] && |parts[k]| > 0
    ensures |Join(parts)| > 0 && Join(parts)[0] != SLASH && Join(parts)[|Join(parts)| - 1] != SLASH
    ensures LStrip(RStrip(Join(parts))) == Join(parts)
  {
    var joined := Join(parts);
    var last := parts[|parts| - 1];
    JoinStartsWithFirst(parts);
    JoinEndsWithLast(parts);
    assert joined[0] == parts[0][0];
    assert joined[|joined| - 1] == last[|last| - 1];
  }

  /** `traversal_path(_join_path_tuple(('',) + S)) == S` for every tuple `S`
      of clean segments: the inverse pair that `model_path` and
      `find_model` rest on. */
  lemma AbsoluteRoundTrip(segments: seq<string>)
    requires forall k :: 0 <= k < |segments| ==> IsClean(segments[k])
    ensures DecodedPath(JoinedPath([""] + segments)) == Ok(segments)
  {
    var q := QuoteAll([""] + segments);
    if |segments| == 0 {
      assert q[0] == QuoteSegment("") == [];
      assert JoinedPath([""] + segments) == [SLASH];
      assert RStrip([SLASH]) == [];
      assert Split([]) == [[]];
      assert Split([])[..0] == [];
      assert Normalize([[]]) == Step([], []);
    } else {
      var joined := Join(QuoteAll(segments));
      assert q == [[]] + QuoteAll(segments);
      assert Join(q) == [SLASH] + joined;
      JoinedRoundTrip(segments);
      forall k | 0 <= k < |segments|
        ensures SLASH !in QuoteAll(segments)[k] && |QuoteAll(segments)[k]| > 0
      {
        assert QuoteAll(segments)[k] == QuoteSegment(segments[k]);
      }
      JoinKeepsEnds(QuoteAll(segments));
      StripLeadingSlash(joined);
    }
  }

  lemma StripLeadingSlash(s: seq<byte>)
    requires |s| > 0 && s[0] != SLASH && s[|s| - 1] != SLASH
    ensures LStrip(RStrip([SLASH] + s)) == s
  {
    var t := [SLASH] + s;
    assert t[|t| - 1] == s[|s| - 1];
    assert RStrip(t) == t;
    assert t[1..] == s;
    assert LStrip(t) == LStrip(s);
  }

  /** The memo table `_segment_cache` behind `quote_path_segment`. */
  class SegmentCache {
    var entries: map<string, seq<byte>>

    /** Every stored value is the quoting of its key. */
    ghost predicate Valid()
      reads this
    {
      forall t :: t in entries ==> entries[t] == QuoteSegment(t)
    }

    /** The module starts with an empty table. */
    constructor ()
      ensures Valid() && entries == map[]
    {
      entries := map[];
    }

    /** `quote_path_segment(segment)`: a hit returns the stored value and
        leaves the table alone; a miss quotes the segment and stores exactly
        the value it returns.  Entries already present never change, so
        every call on the same segment returns the same value. */
    method Quote(segment: string) returns (r: seq<byte>)
      requires Valid()
      modifies this
      ensures Valid()
      ensures r == QuoteSegment(segment)
      ensures segment in old(entries) ==> r == old(entries)[segment] && entries == old(entries)
      ensures segment !in old(entries) ==> entries == old(entries)[segment := r]
      ensures forall t :: t in old(entries) ==> t in entries && entries[t] == old(entries)[t]
    {
      if segment in entries {
        r := entries[segment];
      } else {
        r := UrlQuote(Utf8.Encode(segment));
        entries := entries[segment := r];
      }
    }
  }
}
