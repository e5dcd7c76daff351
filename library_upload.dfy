/** The library's upload rules: the stored name of an uploaded file, built from a
    sanitised base, and the filter that lets only PDF files through. The clock and
    the random suffix are parameters. */
module LibraryUpload {
  import opened Text
  import opened Paths
  import opened Patterns
  import LocalUpload

  const FALLBACK_BASE: string := "arquivo"
  const FALLBACK_NAME: string := "pdf"
  const FALLBACK_EXT: string := ".pdf"
  const PDF_MIME: string := "application/pdf"

  /** The characters a base may hold: `[a-z0-9-_]`. */
  predicate LibChar(c: char) {
    IsLower(c) || IsDigit(c) || c == '-' || c == '_'
  }

  predicate NotLibChar(c: char) {
    !LibChar(c)
  }

  predicate IsDash(c: char) {
    c == '-'
  }

  predicate LibChars(s: string) {
    forall i :: 0 <= i < |s| ==> LibChar(s[i])
  }

  predicate NoDoubleDash(s: string) {
    forall i, j :: 0 <= i < |s| && 0 <= j < |s| && j == i + 1 ==> !(s[i] == '-' && s[j] == '-')
  }

  /** A base as stored: non-empty, `[a-z0-9-_]` only, no "--", and no '-' at
      either end. */
  predicate SafeBaseShape(b: string) {
    b != [] && LibChars(b) && NoDoubleDash(b) && b[0] != '-' && b[|b| - 1] != '-'
  }

  /** `s.replace(/^-|-$/g, '')`: a leading '-' and a trailing '-' removed. */
  function StripDashEnds(s: string): (r: string)
    ensures exists k :: OccursAt(s, r, k)
    ensures |s| - 2 <= |r|
    ensures NoDoubleDash(s) && r != [] ==> r[0] != '-' && r[|r| - 1] != '-'
    ensures s != [] && s[0] != '-' && s[|s| - 1] != '-' ==> r == s
    ensures var front := if s != [] && s[0] == '-' then 1 else 0;
      && front + |r| <= |s| && r == s[front..front + |r|]
      && (|s| - front - |r| == 1 <==> |s| > front && s[|s| - 1] == '-')
      && |s| - front - |r| <= 1
  {
    var t := if s != [] && s[0] == '-' then s[1..] else s;
    var r := if t != [] && t[|t| - 1] == '-' then t[..|t| - 1] else t;
    assert s[|s| - |t|..][..|r|] == r;
    assert OccursAt(s, r, |s| - |t|);
    r
  }

  /** A piece of a string keeps its characters and has no "--" if the string has
      none. */
  lemma SliceShape(s: string, r: string, k: int)
    requires OccursAt(s, r, k) && LibChars(s) && NoDoubleDash(s)
    ensures LibChars(r) && NoDoubleDash(r)
  {
    forall i | 0 <= i < |r|
      ensures r[i] == s[k + i]
    {
      assert r[i] == s[k..k + |r|][i];
    }
  }

  /** The replacement chain of `safeBaseName`, before the fallback: the extension
      cut off, lower-cased, runs of other characters made one '-', runs of '-'
      made one, and a '-' at either end removed. */
  function Sanitised(original: string): (s: string)
    ensures s == [] || SafeBaseShape(s)
  {
    var s0 := if original == "" then FALLBACK_BASE else original;
    var s2 := ToLower(RemoveFirst(s0, ExtName(original)));
    ReplacedShape(s2);
    StripDashEnds(Squash(Squash(s2, NotLibChar), IsDash))
  }

  /** The last three replacements leave either nothing or a safe base. */
  lemma ReplacedShape(s2: string)
    ensures var r := StripDashEnds(Squash(Squash(s2, NotLibChar), IsDash));
      r == [] || SafeBaseShape(r)
  {
    var s3 := Squash(s2, NotLibChar);
    SquashedToLib(s2);
    var s4 := Squash(s3, IsDash);
    SquashedDashes(s3);
    var s5 := StripDashEnds(s4);
    var k :| OccursAt(s4, s5, k);
    SliceShape(s4, s5, k);
  }

  /** After the first replacement only `[a-z0-9-_]` is left. */
  lemma SquashedToLib(s: string)
    ensures LibChars(Squash(s, NotLibChar))
  {
    var r := Squash(s, NotLibChar);
    forall i | 0 <= i < |r| ensures LibChar(r[i]) {
      assert r[i] == '-' || !NotLibChar(r[i]);
    }
  }

  /** After the second replacement no "--" is left. */
  lemma SquashedDashes(s: string)
    requires LibChars(s)
    ensures LibChars(Squash(s, IsDash)) && NoDoubleDash(Squash(s, IsDash))
  {
    var r := Squash(s, IsDash);
    forall i | 0 <= i < |r| ensures LibChar(r[i]) {
      assert r[i] == '-' || r[i] in s;
    }
    forall i, j | 0 <= i < |r| && 0 <= j < |r| && j == i + 1 ensures !(r[i] == '-' && r[j] == '-') {
      if r[i] == '-' {
        assert IsDash('-') && !IsDash(r[j]);
      }
    }
  }

  lemma FallbackBaseShape()
    ensures SafeBaseShape(FALLBACK_BASE)
  {
  }

  /** `safeBaseName`: the sanitised base, or "arquivo" when nothing is left. */
  function SafeBaseName(original: string): (b: string)
    ensures SafeBaseShape(b)
    ensures Sanitised(original) == [] ==> b == FALLBACK_BASE
    ensures Sanitised(original) != [] ==> b == Sanitised(original)
  {
    FallbackBaseShape();
    var s := Sanitised(original);
    if s == [] then FALLBACK_BASE else s
  }

  /** Replacing runs of '-' by one '-' changes nothing where there is no "--". */
  lemma {:induction false} SquashDashesNothing(s: string)
    requires NoDoubleDash(s)
    ensures Squash(s, IsDash) == s
  {
    if s != [] {
      var t := s[1..];
      assert NoDoubleDash(t) by {
        forall i, j | 0 <= i < |t| && 0 <= j < |t| && j == i + 1 ensures !(t[i] == '-' && t[j] == '-') {
          assert t[i] == s[i + 1] && t[j] == s[j + 1];
        }
      }
      SquashDashesNothing(t);
      if s[0] == '-' && t != [] {
        assert t[0] == s[1];
        assert DropWhile(t, IsDash) == t;
      }
    }
  }

  /** A name without a dot has no extension. */
  lemma NoDotNoExt(p: string)
    requires forall i :: 0 <= i < |p| ==> p[i] != '.'
    ensures ExtName(p) == []
  {
    var q := StripSlashes(p);
    var seg := AfterLastSlash(q);
    forall i | 0 <= i < |seg|
      ensures seg[i] != '.'
    {
      assert seg[i] == q[|q| - |seg| + i] == p[|q| - |seg| + i];
    }
  }

  /** Lower-casing changes nothing in a base. */
  lemma ToLowerOfLibChars(s: string)
    requires LibChars(s)
    ensures ToLower(s) == s
  {
  }

  /** A safe base is its own safe base: sanitising is idempotent. */
  lemma SafeBaseNameIdempotent(original: string)
    ensures SafeBaseName(SafeBaseName(original)) == SafeBaseName(original)
  {
    SanitisedOfSafe(SafeBaseName(original));
  }

  /** A base already in the stored shape goes through the chain unchanged. */
  lemma SanitisedOfSafe(b: string)
    requires SafeBaseShape(b)
    ensures Sanitised(b) == b
  {
    assert ExtName(b) == [] by {
      forall i | 0 <= i < |b| ensures b[i] != '.' {
        assert LibChar(b[i]);
      }
      NoDotNoExt(b);
    }
    assert RemoveFirst(b, []) == b;
    ToLowerOfLibChars(b);
    assert Squash(b, NotLibChar) == b by {
      forall i | 0 <= i < |b| ensures !NotLibChar(b[i]) {
        assert LibChar(b[i]);
      }
      SquashNothing(b, NotLibChar);
    }
    SquashDashesNothing(b);
  }

  /** The extension written: extname lower-cased, or ".pdf" when there is none. */
  function StoredExt(original: string): (e: string)
    ensures e != [] && ExtShape(e)
    ensures ExtName(original) != [] ==> e == ToLower(ExtName(original))
    ensures ExtName(original) == [] ==> e == FALLBACK_EXT
  {
    LocalUpload.LowerExtShape(ExtName(original));
    LocalUpload.FallbackExtShape();
    var ext := ToLower(ExtName(original));
    if ext != [] then ext else FALLBACK_EXT
  }

  /** The `filename` callback: `base-<time>-<rand><ext>`, where the base is the
      safe base of the original name (of "pdf" when there is none) and `rand`
      stands for the hex of three random bytes. The name is one path segment and
      its extension is the stored extension. */
  function StoredName(original: string, time: nat, rand: string): (name: string)
    requires forall i :: 0 <= i < |rand| ==> IsHexDigit(rand[i])
    ensures name == SafeBaseName(if original == "" then FALLBACK_NAME else original)
      + "-" + DecimalString(time) + "-" + rand + StoredExt(original)
    ensures NoSlash(name)
    ensures ExtName(name) == StoredExt(original)
  {
    var base := SafeBaseName(if original == "" then FALLBACK_NAME else original);
    LibCharsNoSlash(base);
    LocalUpload.Joined(base, time, rand, StoredExt(original))
  }

  lemma LibCharsNoSlash(s: string)
    requires LibChars(s)
    ensures NoSlash(s)
  {
    forall i | 0 <= i < |s| ensures s[i] != '/' {
      assert LibChar(s[i]);
    }
  }

  /** `fileFilter`: a PDF by its mimetype or by the name's ending. */
  function FileFilter(mimetype: string, original: string): (accept: bool)
    ensures accept <==> mimetype == PDF_MIME || EndsWith(ToLower(original), FALLBACK_EXT)
  {
    mimetype == PDF_MIME || EndsWith(ToLower(original), FALLBACK_EXT)
  }

  /** Lower-casing commutes with taking a suffix. */
  lemma ToLowerSuffix(s: string, k: nat)
    requires k <= |s|
    ensures ToLower(s)[k..] == ToLower(s[k..])
  {
  }

  /** A four-character ending that lower-cases to ".pdf" is an extension. */
  lemma PdfSuffixShape(t: string)
    requires ToLower(t) == FALLBACK_EXT
    ensures |t| == 4 && ExtShape(t) && NoSlash(t)
  {
    var l := ToLower(t);
    assert l[0] == '.' && l[1] == 'p' && l[2] == 'd' && l[3] == 'f';
    assert Lower(t[0]) == '.' && Lower(t[1]) == 'p' && Lower(t[2]) == 'd' && Lower(t[3]) == 'f';
  }

  /** A file accepted by its name is stored with the extension ".pdf", whatever the
      case of the name. */
  lemma AcceptedByNameStoredAsPdf(original: string)
    requires EndsWith(ToLower(original), FALLBACK_EXT)
    ensures StoredExt(original) == FALLBACK_EXT
  {
    var n := |original|;
    var t := original[n - 4..];
    ToLowerSuffix(original, n - 4);
    PdfSuffixShape(t);
    ExtNameOfEnding(original, t);
  }
}
