/** The shared upload helpers: a safe stored name for an uploaded file and the
    PDF mimetype test. The clock and the random suffix are parameters. */
module LocalUpload {
  import opened Common
  import opened Text
  import opened Paths
  import opened Patterns

  const MAX_BASE: nat := 60
  const MAX_EXT: nat := 10
  const FALLBACK_BASE: string := "file"
  const FALLBACK_EXT: string := ".pdf"
  const PDF_MIME: string := "application/pdf"

  /** The characters the base keeps: `[a-zA-Z0-9-_ ]`. */
  predicate NameChar(c: char) {
    IsLower(c) || IsUpper(c) || IsDigit(c) || c == '-' || c == '_' || c == ' '
  }

  /** A base as stored: non-empty, allowed characters other than blanks, at most
      60 of them. */
  predicate StoredBaseShape(b: string) {
    b != [] && |b| <= MAX_BASE && forall i :: 0 <= i < |b| ==> NameChar(b[i]) && b[i] != ' '
  }

  /** The characters of a trimmed string come from the string. */
  lemma TrimChars(s: string)
    ensures forall i :: 0 <= i < |Trim(s)| ==> Trim(s)[i] in s
  {
    var r := Trim(s);
    var k :| SpaceAround(s, r, k);
    forall i | 0 <= i < |r|
      ensures r[i] in s
    {
      assert r[i] == s[k + i];
    }
  }

  /** The cleaned base: allowed characters only, trimmed, each run of blanks made
      one '-', at most 60 characters. */
  function CleanBase(base: string): (r: string)
    ensures |r| <= MAX_BASE
    ensures forall i :: 0 <= i < |r| ==> NameChar(r[i]) && r[i] != ' '
    ensures r == [] <==> forall i :: 0 <= i < |Keep(base, NameChar)| ==> IsSpace(Keep(base, NameChar)[i])
  {
    var trimmed := Trim(Keep(base, NameChar));
    TrimmedKept(base);
    CleanedShape(trimmed);
    Take(Squash(trimmed, IsSpace), MAX_BASE)
  }

  /** The allowed characters, trimmed, are allowed characters, and nothing is left
      exactly when they were all blanks. */
  lemma TrimmedKept(base: string)
    ensures var kept := Keep(base, NameChar);
      && (forall i :: 0 <= i < |Trim(kept)| ==> NameChar(Trim(kept)[i]))
      && (Trim(kept) == [] <==> forall i :: 0 <= i < |kept| ==> IsSpace(kept[i]))
  {
    var kept := Keep(base, NameChar);
    TrimChars(kept);
  }

  /** Squashing blanks and cutting to 60 leaves allowed characters other than
      blanks, and leaves nothing only when there was nothing. */
  lemma CleanedShape(t: string)
    ensures var r := Take(Squash(t, IsSpace), MAX_BASE);
      && |r| <= MAX_BASE
      && (r == [] <==> t == [])
      && ((forall i :: 0 <= i < |t| ==> NameChar(t[i])) ==>
            forall i :: 0 <= i < |r| ==> NameChar(r[i]) && r[i] != ' ')
  {
    var q := Squash(t, IsSpace);
    var r := Take(q, MAX_BASE);
    if forall i :: 0 <= i < |t| ==> NameChar(t[i]) {
      forall i | 0 <= i < |r| ensures NameChar(r[i]) && r[i] != ' ' {
        assert r[i] == q[i];
        assert q[i] == '-' || (q[i] in t && !IsSpace(q[i]));
      }
    }
  }

  /** `cleanBase || 'file'`. */
  function OrFallback(clean: string): (b: string)
    requires |clean| <= MAX_BASE && forall i :: 0 <= i < |clean| ==> NameChar(clean[i]) && clean[i] != ' '
    ensures StoredBaseShape(b)
    ensures clean != [] ==> b == clean
  {
    if clean == [] then FALLBACK_BASE else clean
  }

  /** Lower-casing keeps the shape of an extension. */
  lemma LowerExtShape(e: string)
    requires ExtShape(e)
    ensures ExtShape(ToLower(e)) && |ToLower(e)| == |e|
    ensures forall i :: 0 <= i < |e| ==> !IsUpper(ToLower(e)[i])
  {
    var l := ToLower(e);
    if e != [] {
      forall i | 1 <= i < |l|
        ensures l[i] != '.' && l[i] != '/'
      {
        assert l[i] == Lower(e[i]);
      }
    }
  }

  lemma FallbackExtShape()
    ensures ExtShape(FALLBACK_EXT) && |FALLBACK_EXT| == 4
    ensures forall i :: 0 <= i < |FALLBACK_EXT| ==> !IsUpper(FALLBACK_EXT[i])
  {
  }

  /** The extension written: extname lower-cased, kept when non-empty and at most 10
      characters, otherwise ".pdf". */
  function StoredExt(original: string): (e: string)
    ensures e != [] && ExtShape(e) && |e| <= MAX_EXT
    ensures forall i :: 0 <= i < |e| ==> !IsUpper(e[i])
    ensures ExtName(original) != [] && |ExtName(original)| <= MAX_EXT ==> e == ToLower(ExtName(original))
    ensures ExtName(original) == [] || |ExtName(original)| > MAX_EXT ==> e == FALLBACK_EXT
  {
    var ext := ToLower(ExtName(original));
    LowerExtShape(ExtName(original));
    FallbackExtShape();
    if ext != "" && |ext| <= MAX_EXT then ext else FALLBACK_EXT
  }

  /** The path given to basename: `original || 'file'`. */
  function BasePath(original: string): (p: string)
    ensures ExtName(original) == [] || |ExtName(original)| < |LastSegment(p)|
  {
    ExtNameOfEmpty();
    if original == "" then FALLBACK_BASE else original
  }

  /** The stored base as written: basename is given the lower-cased extension,
      so an extension written in upper case is not cut off. */
  function StoredBase(original: string): (b: string)
    ensures StoredBaseShape(b)
  {
    var ext := ToLower(ExtName(original));
    OrFallback(CleanBase(BaseName(BasePath(original), ext)))
  }

  /** As written, a name whose extension has no upper-case letter gets its cleaned
      stem as base: the extension is cut off before cleaning. */
  lemma LowerExtBaseIsStem(stem: string, e: string)
    requires NoSlash(stem) && e != [] && ExtShape(e)
    requires ExtName(stem + e) == e && ToLower(e) == e
    ensures StoredBase(stem + e) == OrFallback(CleanBase(stem))
  {
    FixedBaseIsStem(stem, e);
  }

  /** The stored base corrected: basename is given the extension as written. */
  function StoredBaseFixed(original: string): (b: string)
    ensures StoredBaseShape(b)
    ensures original != [] && NoSlash(original) ==>
      b == OrFallback(CleanBase(BaseName(original, ExtName(original))))
  {
    OrFallback(CleanBase(BaseName(BasePath(original), ExtName(original))))
  }

  /** `base-stamp-rand` followed by the extension: a single path segment whose
      extension is the one given. */
  function Joined(base: string, stamp: nat, rand: string, ext: string): (name: string)
    requires NoSlash(base)
    requires forall i :: 0 <= i < |rand| ==> IsHexDigit(rand[i])
    requires ext != [] && ExtShape(ext)
    ensures name == base + "-" + DecimalString(stamp) + "-" + rand + ext
    ensures NoSlash(name)
    ensures ExtName(name) == ext
  {
    JoinedShape(base, DecimalString(stamp), rand, ext);
    base + "-" + DecimalString(stamp) + "-" + rand + ext
  }

  lemma JoinedShape(base: string, digits: string, rand: string, ext: string)
    requires NoSlash(base) && AllDigits(digits)
    requires forall i :: 0 <= i < |rand| ==> IsHexDigit(rand[i])
    requires ext != [] && ExtShape(ext)
    ensures var name := base + "-" + digits + "-" + rand + ext;
      NoSlash(name) && ExtName(name) == ext
  {
    var head := base + "-" + digits + "-";
    HeadNoSlash(base, digits);
    HexSuffix(head, rand);
    ExtNameOfJoined(head + rand, ext);
    ExtNoSlash(ext);
    NoSlashJoin(head, rand);
    NoSlashJoin(head + rand, ext);
  }

  /** `base-digits-` has no separator and ends in '-'. */
  lemma HeadNoSlash(base: string, digits: string)
    requires NoSlash(base) && AllDigits(digits)
    ensures var head := base + "-" + digits + "-";
      NoSlash(head) && head[|head| - 1] == '-'
  {
    assert NoSlash(digits);
    NoSlashJoin(base, "-");
    NoSlashJoin(base + "-", digits);
    NoSlashJoin(base + "-" + digits, "-");
  }

  lemma StoredBaseNoSlash(b: string)
    requires StoredBaseShape(b)
    ensures NoSlash(b)
  {
    forall i | 0 <= i < |b| ensures b[i] != '/' {
      assert NameChar(b[i]);
    }
  }

  /** Hex digits are neither separators nor dots. */
  lemma HexSuffix(head: string, rand: string)
    requires head != [] && head[|head| - 1] == '-'
    requires forall i :: 0 <= i < |rand| ==> IsHexDigit(rand[i])
    ensures NoSlash(rand)
    ensures var p := head + rand; p[|p| - 1] != '/' && p[|p| - 1] != '.'
  {
    var p := head + rand;
    if rand != [] {
      assert p[|p| - 1] == rand[|rand| - 1];
      assert IsHexDigit(rand[|rand| - 1]);
    } else {
      assert p == head;
    }
  }

  /** `safeFilename` as written. `rand` stands for
      `Math.random().toString(16).slice(2, 8)`. */
  function SafeFilename(original: string, stamp: nat, rand: string): (name: string)
    requires forall i :: 0 <= i < |rand| ==> IsHexDigit(rand[i])
    ensures name == StoredBase(original) + "-" + DecimalString(stamp) + "-" + rand + StoredExt(original)
    ensures NoSlash(name)
    ensures ExtName(name) == StoredExt(original)
  {
    StoredBaseNoSlash(StoredBase(original));
    Joined(StoredBase(original), stamp, rand, StoredExt(original))
  }

  /** `safeFilename` corrected: the extension is cut off the base in the case it
      was written in. */
  function SafeFilenameFixed(original: string, stamp: nat, rand: string): (name: string)
    requires forall i :: 0 <= i < |rand| ==> IsHexDigit(rand[i])
    ensures name == StoredBaseFixed(original) + "-" + DecimalString(stamp) + "-" + rand + StoredExt(original)
    ensures NoSlash(name)
    ensures ExtName(name) == StoredExt(original)
  {
    StoredBaseNoSlash(StoredBaseFixed(original));
    Joined(StoredBaseFixed(original), stamp, rand, StoredExt(original))
  }

  /** `isPdf`. */
  function IsPdf(mimetype: string): (b: bool)
    ensures b <==> mimetype == PDF_MIME
  {
    mimetype == PDF_MIME
  }

  // ---------------------------------------------------------------- the finding

  /** Upper- and lower-case letters only. */
  predicate Letters(s: string) {
    forall i :: 0 <= i < |s| ==> IsLower(s[i]) || IsUpper(s[i])
  }

  lemma {:induction false} KeepLetters(s: string)
    requires Letters(s)
    ensures Keep(s, NameChar) == s
  {
    if s != [] {
      KeepLetters(s[1..]);
    }
  }

  lemma LettersJoin(a: string, b: string)
    requires Letters(a) && Letters(b)
    ensures Letters(a + b)
  {
    forall i | 0 <= i < |a + b|
      ensures IsLower((a + b)[i]) || IsUpper((a + b)[i])
    {
      if i >= |a| { assert (a + b)[i] == b[i - |a|]; }
    }
  }

  /** A name whose kept characters are letters is cleaned to those letters. */
  lemma CleanOfLetters(s: string, t: string)
    requires 0 < |t| <= MAX_BASE && Letters(t) && Keep(s, NameChar) == t
    ensures CleanBase(s) == t
  {
    assert Word(t);
    CleanOfWord(t);
  }

  /** A single word is neither trimmed nor squashed. */
  lemma CleanOfWord(t: string)
    requires Word(t)
    ensures Squash(Trim(t), IsSpace) == t
  {
    assert NoSpace(t);
    TrimOfTrimmed(t);
    SquashNothing(t, IsSpace);
  }

  /** Blanks only. */
  predicate Blanks(s: string) {
    forall i :: 0 <= i < |s| ==> s[i] == ' '
  }

  /** A non-empty run of allowed characters other than blanks. */
  predicate Word(s: string) {
    s != [] && forall i :: 0 <= i < |s| ==> NameChar(s[i]) && s[i] != ' '
  }

  /** No whitespace at all. */
  predicate NoSpace(s: string) {
    forall i :: 0 <= i < |s| ==> !IsSpace(s[i])
  }

  /** Blanks around a name are trimmed away and the run of blanks between two
      words becomes one '-': "  ab   cd " is cleaned to "ab-cd". */
  lemma CleanOfWords(lead: string, x: string, mid: string, y: string, trail: string)
    requires Blanks(lead) && Blanks(trail) && mid != [] && Blanks(mid)
    requires Word(x) && Word(y)
    ensures CleanBase(lead + x + mid + y + trail) == Take(x + "-" + y, MAX_BASE)
  {
    var m := x + mid + y;
    KeptWords(lead, x, mid, y, trail);
    MiddleOfPadded(lead, x, mid, y, trail);
    TrimOfPadded(lead, m, trail);
    SquashedWords(x, mid, y);
  }

  /** Two words with anything between them neither start nor end with whitespace,
      and sit between the blanks around them. */
  lemma MiddleOfPadded(lead: string, x: string, mid: string, y: string, trail: string)
    requires Word(x) && Word(y)
    ensures var m := x + mid + y;
      && m != [] && !IsSpace(m[0]) && !IsSpace(m[|m| - 1])
      && lead + x + mid + y + trail == lead + m + trail
  {
    var m := x + mid + y;
    assert m[0] == x[0] && m[|m| - 1] == y[|y| - 1];
    Regroup(lead + x, mid, y);
    Regroup(lead, x, mid + y);
    Regroup(x, mid, y);
  }

  /** Every character of such a name is kept by the filter. */
  lemma KeptWords(lead: string, x: string, mid: string, y: string, trail: string)
    requires Blanks(lead) && Blanks(trail) && Blanks(mid) && Word(x) && Word(y)
    ensures Keep(lead + x + mid + y + trail, NameChar) == lead + x + mid + y + trail
  {
    KeepAppend(lead + x + mid + y, trail, NameChar);
    KeepAppend(lead + x + mid, y, NameChar);
    KeepAppend(lead + x, mid, NameChar);
    KeepAppend(lead, x, NameChar);
  }

  /** Between two words, a run of blanks is squashed to one '-'. */
  lemma SquashedWords(x: string, mid: string, y: string)
    requires mid != [] && Blanks(mid) && Word(x) && Word(y)
    ensures Squash(x + mid + y, IsSpace) == x + "-" + y
  {
    var b := mid + y;
    SquashedRunWord(mid, y);
    SquashedWordFirst(x, b, "-" + y);
    Regroup(x, mid, y);
    Regroup(x, "-", y);
  }

  /** A word followed by anything squashes to itself followed by the rest squashed. */
  lemma SquashedWordFirst(x: string, b: string, sb: string)
    requires Word(x) && Squash(b, IsSpace) == sb
    ensures Squash(x + b, IsSpace) == x + sb
  {
    assert NoSpace(x);
    SquashNothing(x, IsSpace);
    assert !IsSpace(x[|x| - 1]);
    SquashAppend(x, b, IsSpace);
  }

  /** A run of blanks before a word becomes one '-'. */
  lemma SquashedRunWord(mid: string, y: string)
    requires mid != [] && Blanks(mid) && Word(y)
    ensures Squash(mid + y, IsSpace) == "-" + y
  {
    assert NoSpace(y) && AllSpace(mid);
    SquashNothing(y, IsSpace);
    SquashRun(mid, IsSpace);
    SquashAppend(mid, y, IsSpace);
  }

  /** A stem of letters followed by a dot and letters: the extension is the dot
      and the letters, and the whole name is its own last segment. */
  lemma LetterNameShape(stem: string, x: string)
    requires stem != [] && Letters(stem) && x != [] && Letters(x)
    ensures var e := ['.'] + x;
      && ExtShape(e) && NoSlash(stem) && NoSlash(stem + e)
      && ExtName(stem + e) == e && LastSegment(stem + e) == stem + e
  {
    var e := ['.'] + x;
    DotLettersShape(x);
    LettersNoSlash(stem);
    assert IsLower(stem[|stem| - 1]) || IsUpper(stem[|stem| - 1]);
    ExtNameOfJoined(stem, e);
    NoSlashJoin(stem, e);
    SegmentOfPlainName(stem + e);
  }

  lemma LettersNoSlash(s: string)
    requires Letters(s)
    ensures NoSlash(s)
  {
  }

  /** A dot followed by letters is an extension; filtering drops the dot. */
  lemma DotLettersShape(x: string)
    requires Letters(x)
    ensures ExtShape(['.'] + x) && NoSlash(['.'] + x)
    ensures Keep(['.'] + x, NameChar) == Keep(x, NameChar)
  {
    var e := ['.'] + x;
    assert e[1..] == x;
    forall i | 1 <= i < |e|
      ensures e[i] != '.' && e[i] != '/'
    {
      assert e[i] == x[i - 1];
    }
  }

  /** A name does not end with the lower-cased form of its own extension when that
      extension holds an upper-case letter. */
  lemma NotEndsWithLowered(stem: string, x: string, j: int)
    requires 0 <= j < |x| && IsUpper(x[j])
    ensures !EndsWith(stem + (['.'] + x), ToLower(['.'] + x))
  {
    var e := ['.'] + x;
    var name := stem + e;
    var l := ToLower(e);
    assert e[j + 1] == x[j];
    assert l[j + 1] != e[j + 1];
    assert l != e;
    assert name[|name| - |e|..] == e;
  }

  /** As written, an extension with an upper-case letter stays in the base: for
      "a.PDF" the base is "aPDF", not "a". */
  lemma UpperCaseExtensionKept(stem: string, x: string, j: int)
    requires stem != [] && Letters(stem) && x != [] && Letters(x)
    requires 0 <= j < |x| && IsUpper(x[j]) && |stem| + |x| <= MAX_BASE
    ensures StoredBase(stem + ['.'] + x) == stem + x
  {
    var e := ['.'] + x;
    var name := stem + e;
    assert stem + ['.'] + x == name;
    LetterNameShape(stem, x);
    NotEndsWithLowered(stem, x, j);
    LowerExtShape(e);
    assert BasePath(name) == name;
    assert BaseName(name, ToLower(e)) == name;
    assert Keep(name, NameChar) == stem + x by {
      KeepAppend(stem, e, NameChar);
      DotLettersShape(x);
      KeepLetters(x);
      KeepLetters(stem);
    }
    LettersJoin(stem, x);
    CleanOfLetters(name, stem + x);
  }

  /** Corrected, the same name gets the stem alone as its base. */
  lemma UpperCaseExtensionStripped(stem: string, x: string)
    requires stem != [] && Letters(stem) && x != [] && Letters(x) && |stem| <= MAX_BASE
    ensures StoredBaseFixed(stem + ['.'] + x) == stem
  {
    var e := ['.'] + x;
    assert stem + ['.'] + x == stem + e;
    LetterNameShape(stem, x);
    FixedBaseIsStem(stem, e);
    KeepLetters(stem);
    CleanOfLetters(stem, stem);
  }

  /** Corrected, the base is the cleaned stem whatever the case of the extension:
      a stem stored with any recognised extension gets the same base. */
  lemma FixedBaseIsStem(stem: string, e: string)
    requires NoSlash(stem) && e != [] && ExtShape(e)
    requires ExtName(stem + e) == e
    ensures StoredBaseFixed(stem + e) == OrFallback(CleanBase(stem))
  {
    var n := stem + e;
    ExtNoSlash(e);
    NoSlashJoin(stem, e);
    SegmentOfPlainName(n);
    assert BasePath(n) == n;
    assert n[|n| - |e|..] == e;
    var b := BaseName(n, e);
    assert b + e == n;
    assert b == (b + e)[..|b|] == n[..|stem|] == stem;
  }
}
