/**
 The JavaScript string operations the rewrite handler relies on, restricted to a
 one-character separator: `String.prototype.split`, `Array.prototype.join`, and an
 independent reference definition of "split at the first occurrence" that the
 handler's split-then-rejoin idiom is proved to compute.
 */
module JsString {

  /** The position of the first occurrence of `d` in `s`. */
  function FirstIndex(s: string, d: char): (i: nat)
    requires d in s
    ensures i < |s| && s[i] == d
    ensures d !in s[..i]
  {
    if s[0] == d then 0
    else
      assert d in s[1..] by { assert s == [s[0]] + s[1..]; }
      var i := 1 + FirstIndex(s[1..], d);
      assert s[..i] == [s[0]] + s[1..][..i - 1];
      i
  }

  /** Reference definition: the part of `s` before its first `d`, and everything after it. */
  function SplitAtFirst(s: string, d: char): (r: (string, string))
    requires d in s
    ensures r.0 + [d] + r.1 == s
    ensures d !in r.0
  {
    var i := FirstIndex(s, d);
    assert s == s[..i] + [d] + s[i + 1..];
    (s[..i], s[i + 1..])
  }

  /** `s.split(d)` for a one-character separator `d`: the maximal `d`-free pieces
      of `s`, in order. The empty string splits into one empty piece. */
  function Split(s: string, d: char): (parts: seq<string>)
    ensures |parts| >= 1
    ensures forall k :: 0 <= k < |parts| ==> d !in parts[k]
  {
    if |s| == 0 then [[]]
    else if s[0] == d then [[]] + Split(s[1..], d)
    else
      var rest := Split(s[1..], d);
      [[s[0]] + rest[0]] + rest[1..]
  }

  /** `parts.join(d)`: the pieces with one `d` between neighbours; `[].join(d)` is empty
      and a single piece is returned as it is. Its meaning together with `Split` is fixed
      by `JoinSplit` and `SplitJoin`. */
  function Join(parts: seq<string>, d: char): (s: string)
    ensures |parts| == 0 ==> s == []
    ensures |parts| == 1 ==> s == parts[0]
    ensures |parts| >= 1 ==> parts[0] <= s
  {
    if |parts| == 0 then []
    else if |parts| == 1 then parts[0]
    else parts[0] + [d] + Join(parts[1..], d)
  }

  /** Joining the pieces of a split with the same separator gives back the string. */
  lemma {:induction false} JoinSplit(s: string, d: char)
    ensures Join(Split(s, d), d) == s
  {
    if |s| > 0 {
      JoinSplit(s[1..], d);
      var rest := Split(s[1..], d);
      var parts := Split(s, d);
      if s[0] == d {
        assert parts == [[]] + rest && parts[1..] == rest;
        assert Join(parts, d) == [] + [d] + Join(rest, d);
      } else if |rest| == 1 {
        assert parts == [[s[0]] + rest[0]];
      } else {
        assert parts == [[s[0]] + rest[0]] + rest[1..] && parts[1..] == rest[1..];
        assert Join(rest, d) == rest[0] + [d] + Join(rest[1..], d);
        assert Join(parts, d) == [s[0]] + rest[0] + [d] + Join(rest[1..], d);
      }
      assert s == [s[0]] + s[1..];
    }
  }

  /** A `d`-free prefix becomes part of the first piece and shifts nothing else. */
  lemma {:induction false} SplitFreePrefix(p: string, t: string, d: char)
    requires d !in p
    ensures Split(p + t, d) == [p + Split(t, d)[0]] + Split(t, d)[1..]
  {
    if |p| > 0 {
      assert d !in p[1..] by { assert p == [p[0]] + p[1..]; }
      SplitFreePrefix(p[1..], t, d);
      assert (p + t)[1..] == p[1..] + t;
      assert p + Split(t, d)[0] == [p[0]] + (p[1..] + Split(t, d)[0]);
    } else {
      assert p + t == t;
      assert p + Split(t, d)[0] == Split(t, d)[0];
      assert [Split(t, d)[0]] + Split(t, d)[1..] == Split(t, d);
    }
  }

  /** Splitting a string of the form `p + d + q` with `d`-free `p` yields `p` first. */
  lemma {:induction false} SplitAtDelimiter(p: string, q: string, d: char)
    requires d !in p
    ensures Split(p + [d] + q, d) == [p] + Split(q, d)
  {
    SplitFreePrefix(p, [d] + q, d);
    assert ([d] + q)[1..] == q;
    assert p + [d] + q == p + ([d] + q);
    assert p + [] == p;
  }

  /** Splitting the join of `d`-free pieces gives back the pieces. */
  lemma {:induction false} SplitJoin(parts: seq<string>, d: char)
    requires |parts| >= 1
    requires forall k :: 0 <= k < |parts| ==> d !in parts[k]
    ensures Split(Join(parts, d), d) == parts
  {
    if |parts| == 1 {
      SplitFreePrefix(parts[0], [], d);
      assert parts[0] + [] == parts[0];
    } else {
      SplitJoin(parts[1..], d);
      SplitAtDelimiter(parts[0], Join(parts[1..], d), d);
      assert parts == [parts[0]] + parts[1..];
    }
  }

  /** A string splits into one more piece than it has separators; in particular it
      splits into more than one piece exactly when it contains the separator. */
  lemma {:induction false} SplitCount(s: string, d: char)
    ensures |Split(s, d)| == multiset(s)[d] + 1
    ensures |Split(s, d)| > 1 <==> d in s
  {
    if |s| > 0 {
      SplitCount(s[1..], d);
      assert s == [s[0]] + s[1..];
      assert multiset(s) == multiset{s[0]} + multiset(s[1..]);
    }
  }

  /** Joining separator-free pieces inserts exactly one separator per gap. */
  lemma {:induction false} JoinCount(parts: seq<string>, d: char)
    requires |parts| >= 1
    requires forall k :: 0 <= k < |parts| ==> d !in parts[k]
    ensures multiset(Join(parts, d))[d] == |parts| - 1
  {
    if |parts| > 1 {
      assert forall k :: 0 <= k < |parts| - 1 ==> parts[1..][k] == parts[k + 1];
      JoinCount(parts[1..], d);
      assert Join(parts, d) == parts[0] + [d] + Join(parts[1..], d);
      assert multiset(parts[0])[d] == 0;
    }
  }

  /** The handler's idiom `const [head, ...tail] = s.split(d); tail.join(d)` splits
      at the first occurrence of `d` and nowhere else. */
  lemma {:induction false} SplitHeadJoinTail(s: string, d: char)
    requires d in s
    ensures Split(s, d)[0] == SplitAtFirst(s, d).0
    ensures Join(Split(s, d)[1..], d) == SplitAtFirst(s, d).1
  {
    var (p, q) := SplitAtFirst(s, d);
    SplitAtDelimiter(p, q, d);
    JoinSplit(q, d);
    assert Split(s, d)[1..] == Split(q, d);
  }

  /** Only the first `d` is consumed: the remainder is the only way to write `s` as a
      `d`-free part, `d`, and a remainder, so every later `d` is kept in it. */
  lemma {:induction false} SplitAtFirstUnique(s: string, d: char, p: string, q: string)
    requires p + [d] + q == s
    requires d !in p
    ensures d in s
    ensures SplitAtFirst(s, d) == (p, q)
  {
    assert s[|p|] == d;
    var (p', q') := SplitAtFirst(s, d);
    assert |p'| == |p|;
    assert p' == s[..|p|] == p;
    assert q' == s[|p| + 1..] == q;
  }

  /** The remainder holds every occurrence of `d` in `s` except the first one. */
  lemma RemainderKeepsLaterDelimiters(s: string, d: char)
    requires d in s
    ensures multiset(SplitAtFirst(s, d).1)[d] == multiset(s)[d] - 1
    ensures SplitAtFirst(s, d).1 == s[FirstIndex(s, d) + 1..]
  {
  }
}
