/** Node's `path.extname` and `path.basename` on '/'-separated names, as the
    upload helpers call them. */
module Paths {
  import opened Text

  /** A name without separators: a single path segment. */
  predicate NoSlash(s: string) {
    forall i :: 0 <= i < |s| ==> s[i] != '/'
  }

  lemma NoSlashJoin(a: string, b: string)
    requires NoSlash(a) && NoSlash(b)
    ensures NoSlash(a + b)
  {
    forall i | 0 <= i < |a + b|
      ensures (a + b)[i] != '/'
    {
      if i >= |a| { assert (a + b)[i] == b[i - |a|]; }
    }
  }

  /** Trailing separators removed. */
  function StripSlashes(p: string): (q: string)
    ensures |q| <= |p| && q == p[..|q|]
    ensures q == [] || q[|q| - 1] != '/'
    ensures forall i :: |q| <= i < |p| ==> p[i] == '/'
  {
    if p != [] && p[|p| - 1] == '/' then StripSlashes(p[..|p| - 1]) else p
  }

  /** What follows the last separator. */
  function AfterLastSlash(q: string): (seg: string)
    ensures SegmentOf(q, seg)
  {
    if q == [] || q[|q| - 1] == '/' then []
    else
      var init := q[..|q| - 1];
      var s := AfterLastSlash(init);
      SegmentSnoc(init, s, q[|q| - 1]);
      assert init + [q[|q| - 1]] == q;
      s + [q[|q| - 1]]
  }

  /** `seg` is what follows the last separator of `q`: an ending of `q` without
      separators, preceded in `q` by a separator if anything precedes it. */
  predicate SegmentOf(q: string, seg: string) {
    && EndsWith(q, seg)
    && (forall i :: 0 <= i < |seg| ==> seg[i] != '/')
    && (|seg| < |q| ==> q[|q| - |seg| - 1] == '/')
  }

  lemma SegmentSnoc(init: string, s: string, c: char)
    requires SegmentOf(init, s) && c != '/'
    ensures SegmentOf(init + [c], s + [c])
  {
    var q, seg := init + [c], s + [c];
    assert q[|q| - |seg|..] == init[|init| - |s|..] + [c];
    forall i | 0 <= i < |seg| ensures seg[i] != '/' {
      if i < |s| { assert seg[i] == s[i]; }
    }
    if |seg| < |q| {
      assert q[|q| - |seg| - 1] == init[|init| - |s| - 1];
    }
  }

  /** The last segment of a path, trailing separators ignored. */
  function LastSegment(p: string): (seg: string)
    ensures |seg| <= |p|
    ensures forall i :: 0 <= i < |seg| ==> seg[i] != '/'
  {
    AfterLastSlash(StripSlashes(p))
  }

  /** The index of the last '.', or -1. */
  function LastDot(s: string): (k: int)
    ensures -1 <= k < |s|
    ensures k >= 0 ==> s[k] == '.'
    ensures forall i :: k < i < |s| ==> s[i] != '.'
  {
    if s == [] then -1
    else if s[|s| - 1] == '.' then |s| - 1
    else LastDot(s[..|s| - 1])
  }

  /** An extension as extname returns it: empty, or a '.' followed by characters
      that are neither '.' nor '/'. */
  predicate ExtShape(e: string) {
    e == [] || (e[0] == '.' && forall i :: 1 <= i < |e| ==> e[i] != '.' && e[i] != '/')
  }

  /** extname of one segment: from its last '.' on, unless there is none, the
      segment starts with it, or the segment is "..". */
  function SegmentExt(seg: string): (e: string)
    requires forall i :: 0 <= i < |seg| ==> seg[i] != '/'
    ensures ExtShape(e)
    ensures e != [] ==> EndsWith(seg, e) && |e| < |seg|
  {
    var k := LastDot(seg);
    if k <= 0 || seg == ".." then [] else seg[k..]
  }

  /** `path.extname(p)`. */
  function ExtName(p: string): (e: string)
    ensures ExtShape(e)
    ensures e != [] ==> EndsWith(LastSegment(p), e) && |e| < |LastSegment(p)|
  {
    SegmentExt(LastSegment(p))
  }

  /** `path.basename(p, suffix)`, for an empty suffix or one shorter than the last
      segment: the segment, with the suffix cut off when it ends with it. */
  function BaseName(p: string, suffix: string): (b: string)
    requires suffix == [] || |suffix| < |LastSegment(p)|
    ensures EndsWith(LastSegment(p), suffix) ==> b + suffix == LastSegment(p)
    ensures !EndsWith(LastSegment(p), suffix) ==> b == LastSegment(p)
  {
    var seg := LastSegment(p);
    if EndsWith(seg, suffix) then CutSuffix(seg, suffix) else seg
  }

  /** `s` without its ending `suffix`. */
  function CutSuffix(s: string, suffix: string): (b: string)
    requires EndsWith(s, suffix)
    ensures b + suffix == s
  {
    var b := s[..|s| - |suffix|];
    assert b + suffix == s;
    b
  }

  /** A name without separators is its own last segment. */
  lemma SegmentOfPlainName(p: string)
    requires p != [] && NoSlash(p)
    ensures LastSegment(p) == p
  {
    assert StripSlashes(p) == p;
    AfterLastSlashAppend([], p);
    assert [] + p == p;
  }

  lemma ExtNameOfEmpty()
    ensures ExtName("") == ""
  {
    assert LastSegment("") == "";
  }

  /** A name splits into its base and its extension. */
  lemma BaseAndExtRoundTrip(p: string)
    ensures BaseName(p, ExtName(p)) + ExtName(p) == LastSegment(p)
  {
  }

  /** Characters without a separator extend the last segment. */
  lemma {:induction false} AfterLastSlashAppend(q: string, t: string)
    requires forall i :: 0 <= i < |t| ==> t[i] != '/'
    ensures AfterLastSlash(q + t) == AfterLastSlash(q) + t
  {
    if t == [] {
      assert q + t == q;
    } else {
      var t' := t[..|t| - 1];
      var qt := q + t;
      assert qt[..|qt| - 1] == q + t';
      assert qt[|qt| - 1] == t[|t| - 1] != '/';
      assert AfterLastSlash(qt) == AfterLastSlash(q + t') + [t[|t| - 1]];
      AfterLastSlashAppend(q, t');
      assert t' + [t[|t| - 1]] == t;
    }
  }

  /** Appending an extension to a name that does not end in a separator or a dot
      makes it the name's extension. */
  lemma ExtNameOfJoined(prefix: string, e: string)
    requires prefix != [] && prefix[|prefix| - 1] != '/' && prefix[|prefix| - 1] != '.'
    requires e != [] && ExtShape(e)
    ensures ExtName(prefix + e) == e
  {
    var p := prefix + e;
    assert p[..|p| - |e|] == prefix && p[|p| - |e|..] == e;
    ExtNoSlash(e);
    SegmentOfEnding(p, e);
    var front := AfterLastSlash(prefix);
    SegmentKeepsLast(prefix);
    var seg := front + e;
    assert seg[|front|..] == e;
    LastDotOfExt(seg, |front|);
  }

  lemma ExtNoSlash(e: string)
    requires ExtShape(e)
    ensures NoSlash(e)
  {
    forall i | 0 <= i < |e| ensures e[i] != '/' {
      if i == 0 { assert e[0] == '.'; }
    }
  }

  /** A name that does not end in a separator ends its last segment. */
  lemma SegmentKeepsLast(q: string)
    requires q != [] && q[|q| - 1] != '/'
    ensures var seg := AfterLastSlash(q); seg != [] && seg[|seg| - 1] == q[|q| - 1]
  {
    assert AfterLastSlash(q) == AfterLastSlash(q[..|q| - 1]) + [q[|q| - 1]];
  }

  /** The last dot of a segment ending in an extension is the extension's dot. */
  lemma LastDotOfExt(seg: string, k: int)
    requires 0 <= k < |seg| && ExtShape(seg[k..]) && seg[k] == '.'
    ensures LastDot(seg) == k
  {
    var e := seg[k..];
    forall i | k < i < |seg|
      ensures seg[i] != '.'
    {
      assert seg[i] == e[i - k];
    }
  }

  /** A name ending in an extension has that extension, or none when nothing
      precedes it in its segment. */
  lemma ExtNameOfEnding(p: string, t: string)
    requires EndsWith(p, t) && t != [] && ExtShape(t) && NoSlash(t)
    ensures ExtName(p) == [] || ExtName(p) == t
  {
    SegmentOfEnding(p, t);
    var front := AfterLastSlash(p[..|p| - |t|]);
    var seg := front + t;
    assert seg[|front|..] == t;
    LastDotOfExt(seg, |front|);
  }

  /** The last segment of a name ending in separator-free characters ends in them. */
  lemma SegmentOfEnding(p: string, t: string)
    requires EndsWith(p, t) && t != [] && NoSlash(t)
    ensures LastSegment(p) == AfterLastSlash(p[..|p| - |t|]) + t
  {
    var head := p[..|p| - |t|];
    assert head + t == p;
    assert p[|p| - 1] == t[|t| - 1];
    assert StripSlashes(p) == p;
    AfterLastSlashAppend(head, t);
  }
}
