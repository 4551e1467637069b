/** Python 2 byte strings (`str`) as sequences of bytes, with the handful of
    `str` operations the traversal core relies on: `split('/')`,
    `'/'.join(...)`, `rstrip('/')`, `lstrip('/')` and `startswith`. */
module ByteStrings {

  type byte = x: int | 0 <= x < 256

  const SLASH: byte := 47
  const DOT: byte := 46
  const PERCENT: byte := 37

  /** `'/'.join(parts)`: the parts separated by single slashes. */
  function Join(parts: seq<seq<byte>>): (r: seq<byte>)
    decreases |parts|
  {
    if |parts| == 0 then []
    else if |parts| == 1 then parts[0]
    else parts[0] + [SLASH] + Join(parts[1..])
  }

  /** `s.split('/')`: the maximal slash-free pieces of `s`, in order; there is
      always one more piece than there are slashes. */
  function Split(s: seq<byte>): (r: seq<seq<byte>>)
    ensures |r| >= 1
    ensures forall k :: 0 <= k < |r| ==> SLASH !in r[k]
    ensures Join(r) == s
    decreases |s|
  {
    if |s| == 0 then [[]]
    else
      var rest := Split(s[1..]);
      if s[0] == SLASH then [[]] + rest
      else [[s[0]] + rest[0]] + rest[1..]
  }

  /** Splitting undoes joining whenever no part holds a slash. */
  lemma {:induction false} SplitJoin(parts: seq<seq<byte>>)
    requires |parts| >= 1
    requires forall k :: 0 <= k < |parts| ==> SLASH !in parts[k]
    ensures Split(Join(parts)) == parts
    decreases |parts|
  {
    if |parts| == 1 {
      SplitSlashFree(parts[0]);
    } else {
      SplitJoin(parts[1..]);
      SplitAfterSlashFree(parts[0], Join(parts[1..]));
      assert Join(parts) == parts[0] + [SLASH] + Join(parts[1..]);
      assert [parts[0]] + parts[1..] == parts;
    }
  }

  lemma {:induction false} SplitSlashFree(a: seq<byte>)
    requires SLASH !in a
    ensures Split(a) == [a]
    decreases |a|
  {
    if |a| > 0 {
      SplitSlashFree(a[1..]);
      assert [a[0]] + a[1..] == a;
    }
  }

  lemma {:induction false} SplitAfterSlashFree(a: seq<byte>, rest: seq<byte>)
    requires SLASH !in a
    ensures Split(a + [SLASH] + rest) == [a] + Split(rest)
    decreases |a|
  {
    if |a| == 0 {
      assert a + [SLASH] + rest == [SLASH] + rest;
      assert ([SLASH] + rest)[1..] == rest;
    } else {
      SplitAfterSlashFree(a[1..], rest);
      assert (a + [SLASH] + rest)[1..] == a[1..] + [SLASH] + rest;
      assert [a[0]] + a[1..] == a;
    }
  }

  /** Splitting at one slash splits the two sides separately. */
  lemma SplitAtSlash(a: seq<byte>, b: seq<byte>)
    ensures Split(a + [SLASH] + b) == Split(a) + Split(b)
  {
    var parts := Split(a) + Split(b);
    JoinAppend(Split(a), Split(b));
    forall k | 0 <= k < |parts|
      ensures SLASH !in parts[k]
    {
      if k >= |Split(a)| {
        assert parts[k] == Split(b)[k - |Split(a)|];
      }
    }
    SplitJoin(parts);
  }

  /** Joining two non-empty lists of parts puts one slash between their
      joins. */
  lemma {:induction false} JoinAppend(p: seq<seq<byte>>, q: seq<seq<byte>>)
    requires |p| >= 1 && |q| >= 1
    ensures Join(p + q) == Join(p) + [SLASH] + Join(q)
    decreases |p|
  {
    if |p| == 1 {
      assert (p + q)[0] == p[0] && (p + q)[1..] == q;
    } else {
      JoinAppend(p[1..], q);
      assert (p + q)[0] == p[0] && (p + q)[1..] == p[1..] + q;
    }
  }

  /** A string of slashes only splits into empty pieces. */
  lemma {:induction false} SplitSlashes(s: seq<byte>)
    requires forall k :: 0 <= k < |s| ==> s[k] == SLASH
    ensures forall k :: 0 <= k < |Split(s)| ==> Split(s)[k] == []
    decreases |s|
  {
    if |s| > 0 {
      SplitSlashes(s[1..]);
    }
  }

  /** `s.rstrip('/')`: `s` without its trailing slashes. */
  function RStrip(s: seq<byte>): (r: seq<byte>)
    ensures |r| <= |s|
    ensures |r| == 0 || r[|r| - 1] != SLASH
    ensures forall k :: |r| <= k < |s| ==> s[k] == SLASH
    decreases |s|
  {
    if |s| > 0 && s[|s| - 1] == SLASH then RStrip(s[..|s| - 1]) else s
  }

  /** `s.lstrip('/')`: `s` without its leading slashes. */
  function LStrip(s: seq<byte>): (r: seq<byte>)
    ensures |r| <= |s|
    ensures |r| == 0 || r[0] != SLASH
    ensures forall k :: 0 <= k < |s| - |r| ==> s[k] == SLASH
    decreases |s|
  {
    if |s| > 0 && s[0] == SLASH then LStrip(s[1..]) else s
  }

  /** What `rstrip` keeps is a prefix of `s`. */
  lemma {:induction false} RStripIsPrefix(s: seq<byte>)
    ensures RStrip(s) == s[..|RStrip(s)|]
    decreases |s|
  {
    if |s| > 0 && s[|s| - 1] == SLASH {
      RStripIsPrefix(s[..|s| - 1]);
    }
  }

  /** What `lstrip` keeps is a suffix of `s`. */
  lemma {:induction false} LStripIsSuffix(s: seq<byte>)
    ensures LStrip(s) == s[|s| - |LStrip(s)|..]
    decreases |s|
  {
    if |s| > 0 && s[0] == SLASH {
      LStripIsSuffix(s[1..]);
    }
  }

  /** `s.startswith(prefix)`. */
  predicate StartsWith(s: seq<byte>, prefix: seq<byte>)
  {
    |prefix| <= |s| && s[..|prefix|] == prefix
  }
}
