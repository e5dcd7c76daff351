/** The regular-expression replacements the upload helpers apply to file names,
    each as a function over characters. */
module Patterns {
  import opened Common
  import opened Text

  /** `s.replace(/[^…]/g, '')`: only the characters satisfying `keep`, order kept. */
  function Keep(s: string, keep: char -> bool): (r: string)
    ensures |r| <= |s|
    ensures forall i :: 0 <= i < |r| ==> keep(r[i]) && r[i] in s
    ensures forall i :: 0 <= i < |s| && keep(s[i]) ==> s[i] in r
    ensures |s| == 1 ==> r == (if keep(s[0]) then s else [])
    ensures (forall i :: 0 <= i < |s| ==> keep(s[i])) ==> r == s
  {
    if s == [] then []
    else
      var rest := Keep(s[1..], keep);
      assert forall c :: c in s <==> c == s[0] || c in s[1..];
      if keep(s[0]) then [s[0]] + rest else rest
  }

  /** Filtering distributes over concatenation: together with the one-character
      case it fixes the order and the number of the characters kept. */
  lemma {:induction false} KeepAppend(a: string, b: string, keep: char -> bool)
    ensures Keep(a + b, keep) == Keep(a, keep) + Keep(b, keep)
  {
    if a == [] {
      assert a + b == b;
    } else {
      assert (a + b)[1..] == a[1..] + b;
      KeepAppend(a[1..], b, keep);
    }
  }

  /** The leading characters satisfying `p` removed. */
  function DropWhile(s: string, p: char -> bool): (r: string)
    ensures |r| <= |s| && r == s[|s| - |r|..]
    ensures r == [] || !p(r[0])
    ensures forall i :: 0 <= i < |s| - |r| ==> p(s[i])
  {
    if s != [] && p(s[0]) then DropWhile(s[1..], p) else s
  }

  /** `s.replace(/[…]+/g, '-')`: every maximal run of characters satisfying `p`
      replaced by one '-'. */
  function Squash(s: string, p: char -> bool): (r: string)
    ensures Squashed(s, r, p)
    decreases |s|
  {
    if s == [] then []
    else if p(s[0]) then
      var rest := DropWhile(s[1..], p);
      var tail := Squash(rest, p);
      SquashedRun(s, rest, tail, p);
      "-" + tail
    else
      var tail := Squash(s[1..], p);
      SquashedKept(s, tail, p);
      [s[0]] + tail
  }

  /** r is empty only for empty s, starts with s's first character or '-' for a
      run, holds only '-' and non-matching characters of s, and no '-' standing for
      a run is followed by a matching character. */
  predicate Squashed(s: string, r: string, p: char -> bool) {
    && (r == [] <==> s == [])
    && (s != [] ==> r[0] == (if p(s[0]) then '-' else s[0]))
    && (forall i :: 0 <= i < |r| ==> r[i] == '-' || (r[i] in s && !p(r[i])))
    && (forall i, j :: 0 <= i < |r| && 0 <= j < |r| && j == i + 1 && r[i] == '-' && p('-') ==> !p(r[j]))
  }

  /** A run at the front becomes one '-' before the squashed remainder. */
  lemma SquashedRun(s: string, rest: string, tail: string, p: char -> bool)
    requires s != [] && p(s[0]) && rest == DropWhile(s[1..], p)
    requires Squashed(rest, tail, p)
    ensures Squashed(s, "-" + tail, p)
  {
    InSuffix(s, rest);
    DashBeforeChars(s, rest, tail, p);
    DashBeforeNoRun(rest, tail, p);
  }

  /** Putting '-' in front keeps every character a '-' or a non-matching one of s. */
  lemma DashBeforeChars(s: string, rest: string, tail: string, p: char -> bool)
    requires forall c :: c in rest ==> c in s
    requires forall i :: 0 <= i < |tail| ==> tail[i] == '-' || (tail[i] in rest && !p(tail[i]))
    ensures var r := "-" + tail;
      forall i :: 0 <= i < |r| ==> r[i] == '-' || (r[i] in s && !p(r[i]))
  {
    var r := "-" + tail;
    forall i | 0 < i < |r| ensures r[i] == tail[i - 1] { }
  }

  /** Putting '-' in front of the squash of a string that starts outside the run
      puts no matching character after a '-'. */
  lemma DashBeforeNoRun(rest: string, tail: string, p: char -> bool)
    requires rest == [] || !p(rest[0])
    requires Squashed(rest, tail, p)
    ensures var r := "-" + tail;
      forall i, j :: 0 <= i < |r| && 0 <= j < |r| && j == i + 1 && r[i] == '-' && p('-') ==> !p(r[j])
  {
    var r := "-" + tail;
    forall i, j | 0 <= i < |r| && 0 <= j < |r| && j == i + 1 && r[i] == '-' && p('-')
      ensures !p(r[j])
    {
      if i == 0 {
        assert r[j] == rest[0];
      } else {
        assert r[i] == tail[i - 1] && r[j] == tail[j - 1];
      }
    }
  }


  /** The characters of a suffix are characters of the string. */
  lemma InSuffix(s: string, t: string)
    requires |t| <= |s| && t == s[|s| - |t|..]
    ensures forall c :: c in t ==> c in s
  {
    forall c | c in t ensures c in s {
      var j :| 0 <= j < |t| && t[j] == c;
      assert s[|s| - |t| + j] == c;
    }
  }


  /** A non-matching first character is kept before the squashed remainder. */
  lemma SquashedKept(s: string, tail: string, p: char -> bool)
    requires s != [] && !p(s[0])
    requires Squashed(s[1..], tail, p)
    ensures Squashed(s, [s[0]] + tail, p)
  {
    assert forall c :: c in s[1..] ==> c in s;
  }


  /** Dropping a leading run of a concatenation stops inside the first part
      unless that part is all run. */
  lemma {:induction false} DropWhileAppend(a: string, b: string, p: char -> bool)
    ensures DropWhile(a + b, p) ==
      (if DropWhile(a, p) != [] then DropWhile(a, p) + b else DropWhile(b, p))
  {
    if a == [] {
      assert a + b == b;
    } else {
      DropHead(a, b, p);
      if p(a[0]) {
        DropWhileAppend(a[1..], b, p);
      }
    }
  }

  /** One step of dropping from a concatenation whose first part is not empty. */
  lemma DropHead(a: string, b: string, p: char -> bool)
    requires a != []
    ensures p(a[0]) ==> DropWhile(a + b, p) == DropWhile(a[1..] + b, p) && DropWhile(a, p) == DropWhile(a[1..], p)
    ensures !p(a[0]) ==> DropWhile(a + b, p) == a + b && DropWhile(a, p) == a
  {
    assert (a + b)[0] == a[0] && (a + b)[1..] == a[1..] + b;
  }

  /** A non-empty run of characters satisfying `p` becomes a single '-'. */
  lemma SquashRun(s: string, p: char -> bool)
    requires s != [] && forall i :: 0 <= i < |s| ==> p(s[i])
    ensures Squash(s, p) == "-"
  {
    var x := s[1..];
    assert forall i :: 0 <= i < |x| ==> p(x[i]);
  }

  /** Characters none of which satisfies `p` are left as they are. */
  lemma {:induction false} SquashNothing(s: string, p: char -> bool)
    requires forall i :: 0 <= i < |s| ==> !p(s[i])
    ensures Squash(s, p) == s
  {
    if s != [] {
      SquashNothing(s[1..], p);
    }
  }

  /** Squashing distributes over a concatenation that does not split a run: the
      parts squash separately when one side of the seam is a character that does
      not satisfy `p`. With `SquashRun` and `SquashNothing` this fixes the result:
      the runs become one '-' each and everything else is kept in order. */
  lemma {:induction false} SquashAppend(a: string, b: string, p: char -> bool)
    requires a == [] || b == [] || !p(a[|a| - 1]) || !p(b[0])
    ensures Squash(a + b, p) == Squash(a, p) + Squash(b, p)
    decreases |a|, 1
  {
    if a == [] {
      assert a + b == b;
    } else if b == [] {
      assert a + b == a;
    } else if !p(a[0]) {
      SquashAppendKept(a, b, p);
    } else {
      SquashAppendRun(a, b, p);
    }
  }

  /** `SquashAppend` when the first part starts with a kept character. */
  lemma {:induction false} SquashAppendKept(a: string, b: string, p: char -> bool)
    requires a != [] && b != [] && !p(a[0])
    requires !p(a[|a| - 1]) || !p(b[0])
    ensures Squash(a + b, p) == Squash(a, p) + Squash(b, p)
    decreases |a|, 0
  {
    SquashHead(a, b, p);
    var t := a[1..];
    assert t == [] || t[|t| - 1] == a[|a| - 1];
    SquashAppend(t, b, p);
    PrefixChain([a[0]], Squash(a + b, p), Squash(a, p), Squash(t + b, p), Squash(t, p), Squash(b, p));
  }

  /** `SquashAppend` when the first part starts with a run. */
  lemma {:induction false} SquashAppendRun(a: string, b: string, p: char -> bool)
    requires a != [] && b != [] && p(a[0])
    requires !p(a[|a| - 1]) || !p(b[0])
    ensures Squash(a + b, p) == Squash(a, p) + Squash(b, p)
    decreases |a|, 0
  {
    var d := DropWhile(a[1..], p);
    if d != [] {
      SquashHead(a, b, p);
      DropWhileAppend(a[1..], b, p);
      RunSeam(a, p);
      SquashAppend(d, b, p);
      PrefixChain("-", Squash(a + b, p), Squash(a, p), Squash(d + b, p), Squash(d, p), Squash(b, p));
    } else {
      SquashWholeRun(a, b, p);
    }
  }

  /** A first part that is one run squashes to '-' before the squashed second part. */
  lemma SquashWholeRun(a: string, b: string, p: char -> bool)
    requires a != [] && b != [] && p(a[0]) && DropWhile(a[1..], p) == []
    requires !p(a[|a| - 1]) || !p(b[0])
    ensures Squash(a + b, p) == Squash(a, p) + Squash(b, p)
  {
    RunSeam(a, p);
    DropWhileAppend(a[1..], b, p);
    assert DropWhile(b, p) == b;
    SquashHead(a, b, p);
    assert Squash(a, p) == "-";
  }

  /** One step of squashing a concatenation whose first part is not empty. */
  lemma SquashHead(a: string, b: string, p: char -> bool)
    requires a != []
    ensures !p(a[0]) ==> Squash(a + b, p) == [a[0]] + Squash(a[1..] + b, p)
    ensures !p(a[0]) ==> Squash(a, p) == [a[0]] + Squash(a[1..], p)
    ensures p(a[0]) ==> Squash(a + b, p) == "-" + Squash(DropWhile(a[1..] + b, p), p)
    ensures p(a[0]) ==> Squash(a, p) == "-" + Squash(DropWhile(a[1..], p), p)
  {
    assert (a + b)[0] == a[0] && (a + b)[1..] == a[1..] + b;
  }

  /** What is left after a leading run ends like the whole, unless the run reaches
      the last character. */
  lemma RunSeam(a: string, p: char -> bool)
    requires a != [] && p(a[0])
    ensures var d := DropWhile(a[1..], p);
      && (d != [] ==> d[|d| - 1] == a[|a| - 1])
      && (d == [] ==> p(a[|a| - 1]))
  {
    var t := a[1..];
    if |a| > 1 {
      assert t[|t| - 1] == a[|a| - 1];
    }
  }


  /** `s.slice(0, n)`. */
  function Take(s: string, n: nat): (r: string)
    ensures |r| <= n && |r| <= |s| && r == s[..|r|]
    ensures |s| <= n ==> r == s
    ensures |s| > n ==> |r| == n
  {
    if |s| <= n then s else s[..n]
  }

  /** `s.replace(pattern, '')` with a string pattern: its first occurrence removed;
      an empty pattern removes nothing. */
  function RemoveFirst(s: string, pattern: string): (r: string)
    ensures Contains(s, pattern) ==> |r| == |s| - |pattern|
    ensures !Contains(s, pattern) ==> r == s
    ensures forall i :: 0 <= i < |r| ==> r[i] in s
    ensures Contains(s, pattern) ==> exists k :: RemovedAt(s, pattern, r, k)
  {
    if |s| < |pattern| then s
    else if s[..|pattern|] == pattern then
      assert OccursAt(s, pattern, 0);
      assert forall i :: 0 <= i < |s| - |pattern| ==> s[|pattern|..][i] in s;
      assert RemovedAt(s, pattern, s[|pattern|..], 0);
      s[|pattern|..]
    else
      var rest := RemoveFirst(s[1..], pattern);
      ContainsPastFirst(s, pattern);
      assert forall c :: c in s[1..] ==> c in s;
      RemovedPastFirst(s, pattern, rest);
      [s[0]] + rest
  }

  /** `r` is `s` with the occurrence of `pattern` at k cut out, and `pattern`
      occurs nowhere before k. */
  predicate RemovedAt(s: string, pattern: string, r: string, k: int) {
    && OccursAt(s, pattern, k)
    && (forall j :: 0 <= j < k ==> !OccursAt(s, pattern, j))
    && r == s[..k] + s[k + |pattern|..]
  }

  /** A first occurrence in the tail is a first occurrence in the whole when the
      pattern does not start at the front. */
  lemma RemovedPastFirst(s: string, pattern: string, rest: string)
    requires |s| >= |pattern| && s[..|pattern|] != pattern
    requires Contains(s[1..], pattern) ==> exists k :: RemovedAt(s[1..], pattern, rest, k)
    ensures Contains(s[1..], pattern) ==> exists k :: RemovedAt(s, pattern, [s[0]] + rest, k)
  {
    if Contains(s[1..], pattern) {
      var k :| RemovedAt(s[1..], pattern, rest, k);
      assert s[k + 1..k + 1 + |pattern|] == s[1..][k..k + |pattern|];
      forall j | 0 <= j < k + 1
        ensures !OccursAt(s, pattern, j)
      {
        if 0 < j <= |s| - |pattern| {
          var t := s[1..];
          var u, v := s[j..j + |pattern|], t[j - 1..j - 1 + |pattern|];
          assert forall i :: 0 <= i < |pattern| ==> u[i] == v[i];
          assert u == v;
          assert !OccursAt(s[1..], pattern, j - 1);
        }
      }
      assert [s[0]] + rest == s[..k + 1] + s[k + 1 + |pattern|..];
      assert RemovedAt(s, pattern, [s[0]] + rest, k + 1);
    }
  }

  /** An occurrence that does not start at the front lies in the tail. */
  lemma ContainsPastFirst(s: string, pattern: string)
    requires |s| >= |pattern| && s[..|pattern|] != pattern
    ensures Contains(s, pattern) <==> Contains(s[1..], pattern)
  {
    if Contains(s, pattern) {
      var k :| 0 <= k <= |s| - |pattern| && OccursAt(s, pattern, k);
      assert k != 0;
      assert s[1..][k - 1..k - 1 + |pattern|] == s[k..k + |pattern|];
      assert OccursAt(s[1..], pattern, k - 1);
    }
    if Contains(s[1..], pattern) {
      var k :| 0 <= k <= |s[1..]| - |pattern| && OccursAt(s[1..], pattern, k);
      assert s[k + 1..k + 1 + |pattern|] == s[1..][k..k + |pattern|];
      assert OccursAt(s, pattern, k + 1);
    }
  }
}
