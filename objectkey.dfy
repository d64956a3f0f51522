/** The object-key namer of main.ts: `sanitize`, `mimeToExt`, the file name
    `${sanitize(n) || uuid}.${ext}`, the links built from it and the key the
    download route reads back out of a path. */
module ObjectKey {
  import opened Wrappers

  // ---------------------------------------------------------------------
  // Character classes

  /** `\w` of a JavaScript regular expression without the `u` flag. */
  predicate IsWordChar(c: char) {
    'A' <= c <= 'Z' || 'a' <= c <= 'z' || '0' <= c <= '9' || c == '_'
  }

  /** The class `[\w\-. ]`, which the first replace keeps. */
  predicate IsKept(c: char) {
    IsWordChar(c) || c == '-' || c == '.' || c == ' '
  }

  /** The characters a sanitized name is made of: `[A-Za-z0-9_.-]`. */
  predicate IsSafe(c: char) {
    IsWordChar(c) || c == '-' || c == '.'
  }

  predicate AllSafe(s: string) {
    forall i :: 0 <= i < |s| ==> IsSafe(s[i])
  }

  /** ECMAScript WhiteSpace and LineTerminator: what `\s` matches and what
      `String.prototype.trim` removes. */
  predicate IsJsWhitespace(c: char) {
    c == '\t' || c == '\n' || c == '\U{000B}' || c == '\U{000C}' || c == '\r' || c == ' ' ||
    c == '\U{00A0}' || c == '\U{1680}' || ('\U{2000}' <= c <= '\U{200A}') ||
    c == '\U{2028}' || c == '\U{2029}' || c == '\U{202F}' || c == '\U{205F}' ||
    c == '\U{3000}' || c == '\U{FEFF}'
  }

  /** No whitespace character is one of `[A-Za-z0-9_.-]`. */
  lemma WhitespaceIsNotSafe(c: char)
    requires IsJsWhitespace(c)
    ensures !IsSafe(c)
  {
  }

  predicate NoWhitespace(s: string) {
    forall i :: 0 <= i < |s| ==> !IsJsWhitespace(s[i])
  }

  // ---------------------------------------------------------------------
  // sanitize (main.ts:38-40)

  /** `replace(/[^\w\-. ]/g, "")`. */
  function StripDisallowed(s: string): (r: string)
    ensures |r| <= |s|
    ensures forall i :: 0 <= i < |r| ==> IsKept(r[i])
  {
    if s == [] then []
    else if IsKept(s[0]) then [s[0]] + StripDisallowed(s[1..])
    else StripDisallowed(s[1..])
  }

  /** The whitespace at the front of `s` removed. */
  function DropLeadingWhitespace(s: string): (r: string)
    ensures |r| <= |s| && r == s[|s| - |r|..]
    ensures r == [] || !IsJsWhitespace(r[0])
    ensures s != [] && IsJsWhitespace(s[0]) ==> |r| < |s|
  {
    if s != [] && IsJsWhitespace(s[0]) then DropLeadingWhitespace(s[1..]) else s
  }

  /** The whitespace at the end of `s` removed. */
  function DropTrailingWhitespace(s: string): (r: string)
    ensures |r| <= |s| && r == s[..|r|]
    ensures r == [] || !IsJsWhitespace(r[|r| - 1])
  {
    if s != [] && IsJsWhitespace(s[|s| - 1]) then DropTrailingWhitespace(s[..|s| - 1]) else s
  }

  /** `replace(/\s+/g, "-")`: each maximal run of whitespace becomes one hyphen. */
  function CollapseWhitespace(s: string): (r: string)
    ensures |r| <= |s|
    decreases |s|
  {
    if s == [] then []
    else if IsJsWhitespace(s[0]) then "-" + CollapseWhitespace(DropLeadingWhitespace(s))
    else [s[0]] + CollapseWhitespace(s[1..])
  }

  /** `String.prototype.trim`. */
  function Trim(s: string): (r: string)
    ensures |r| <= |s|
  {
    DropTrailingWhitespace(DropLeadingWhitespace(s))
  }

  /** `sanitize(n)`: a missing or empty name gives "file"; otherwise the three
      string steps in order. The result can be empty ("!!!" gives ""). */
  function Sanitize(n: Option<string>): (r: string)
    ensures AllSafe(r)
    ensures n.Some? && n.value != "" ==> |r| <= |n.value|
  {
    if n.None? || n.value == "" then "file"
    else
      var collapsed := CollapseWhitespace(StripDisallowed(n.value));
      CollapsedIsSafe(StripDisallowed(n.value));
      CollapseSpec(StripDisallowed(n.value));
      TrimWithoutWhitespace(collapsed);
      Trim(collapsed)
  }

  // ---------------------------------------------------------------------
  // Properties of sanitize

  lemma TrimWithoutWhitespace(s: string)
    requires NoWhitespace(s)
    ensures Trim(s) == s
  {
    assert DropLeadingWhitespace(s) == s;
    assert DropTrailingWhitespace(s) == s;
  }

  /** Collapsing leaves no whitespace, and is empty only for an empty input. */
  lemma {:induction false} CollapseSpec(s: string)
    ensures CollapseWhitespace(s) == [] <==> s == []
    ensures NoWhitespace(CollapseWhitespace(s))
    decreases |s|
  {
    if s != [] {
      if IsJsWhitespace(s[0]) {
        var rest := DropLeadingWhitespace(s);
        CollapseSpec(rest);
        assert CollapseWhitespace(s) == "-" + CollapseWhitespace(rest);
      } else {
        CollapseSpec(s[1..]);
        assert CollapseWhitespace(s) == [s[0]] + CollapseWhitespace(s[1..]);
      }
    }
  }

  /** After the first step only spaces are left as whitespace; collapsing them
      therefore leaves only `[A-Za-z0-9_.-]`. */
  lemma {:induction false} CollapsedIsSafe(s: string)
    requires forall i :: 0 <= i < |s| ==> IsKept(s[i])
    ensures AllSafe(CollapseWhitespace(s))
    decreases |s|
  {
    if s != [] {
      var k, c;
      if IsJsWhitespace(s[0]) {
        k := |s| - |DropLeadingWhitespace(s)|;
        c := '-';
        assert CollapseWhitespace(s) == "-" + CollapseWhitespace(s[k..]);
      } else {
        k := 1;
        c := s[0];
        assert s[0] != ' ';
        assert CollapseWhitespace(s) == [s[0]] + CollapseWhitespace(s[1..]);
      }
      KeptSuffix(s, k);
      CollapsedIsSafe(s[k..]);
      SafeCons(c, CollapseWhitespace(s[k..]));
    }
  }

  lemma KeptSuffix(s: string, k: nat)
    requires k <= |s| && forall i :: 0 <= i < |s| ==> IsKept(s[i])
    ensures forall i :: 0 <= i < |s[k..]| ==> IsKept(s[k..][i])
  {
    assert forall i :: 0 <= i < |s[k..]| ==> s[k..][i] == s[k + i];
  }

  lemma SafeCons(c: char, t: string)
    requires IsSafe(c) && AllSafe(t)
    ensures AllSafe([c] + t)
  {
    assert forall i :: 1 <= i < |t| + 1 ==> ([c] + t)[i] == t[i - 1];
  }

  /** The final `trim()` never changes anything: after the whitespace runs
      became hyphens there is no whitespace left, so a hyphen made from leading
      or trailing spaces stays. */
  lemma TrimIsNoOp(s: string)
    ensures Trim(CollapseWhitespace(StripDisallowed(s))) == CollapseWhitespace(StripDisallowed(s))
  {
    CollapseSpec(StripDisallowed(s));
    TrimWithoutWhitespace(CollapseWhitespace(StripDisallowed(s)));
  }

  lemma {:induction false} CollapseWithoutWhitespaceIsIdentity(s: string)
    requires NoWhitespace(s)
    ensures CollapseWhitespace(s) == s
    decreases |s|
  {
    if s != [] {
      assert !IsJsWhitespace(s[0]);
      CollapseWithoutWhitespaceIsIdentity(s[1..]);
    }
  }

  lemma SafeHasNoWhitespace(s: string)
    requires AllSafe(s)
    ensures NoWhitespace(s)
  {
  }

  /** A non-empty name made of `[A-Za-z0-9_.-]` only is its own sanitization. */
  lemma SanitizeFixesSafeNames(s: string)
    requires s != "" && AllSafe(s)
    ensures Sanitize(Some(s)) == s
  {
    SanitizeOfNonEmpty(s);
    assert StripDisallowed(s) == s by {
      assert forall i :: 0 <= i < |s| ==> IsKept(s[i]);
      StripKeptIsIdentity(s);
    }
    assert CollapseWhitespace(s) == s by {
      SafeHasNoWhitespace(s);
      CollapseWithoutWhitespaceIsIdentity(s);
    }
  }

  /** Sanitizing a non-empty sanitized name changes nothing. */
  lemma SanitizeIdempotent(n: Option<string>)
    ensures Sanitize(n) != "" ==> Sanitize(Some(Sanitize(n))) == Sanitize(n)
  {
    if Sanitize(n) != "" {
      SanitizeFixesSafeNames(Sanitize(n));
    }
  }

  lemma {:induction false} StripEmptyIff(s: string)
    ensures StripDisallowed(s) == [] <==> forall i :: 0 <= i < |s| ==> !IsKept(s[i])
  {
    if s != [] {
      StripEmptyIff(s[1..]);
      if !IsKept(s[0]) {
        assert forall i :: 1 <= i < |s| ==> s[i] == s[1..][i - 1];
      }
    }
  }

  /** A non-empty name sanitizes to "" exactly when it has no character of
      `[\w\-. ]`; this is the case where the fresh token is used. */
  lemma SanitizeEmptyIff(s: string)
    requires s != ""
    ensures Sanitize(Some(s)) == "" <==> forall i :: 0 <= i < |s| ==> !IsKept(s[i])
  {
    StripEmptyIff(s);
    TrimIsNoOp(s);
  }

  /** The first replace works character by character: one character is kept
      exactly when it is in `[\w\-. ]`, ... */
  lemma StripOne(c: char)
    ensures StripDisallowed([c]) == if IsKept(c) then [c] else []
  {
    assert [c][1..] == [];
  }

  /** ... and a concatenation is filtered piece by piece, so the kept
      characters, hyphen and space included, survive in their order. */
  lemma {:induction false} StripAppend(a: string, b: string)
    ensures StripDisallowed(a + b) == StripDisallowed(a) + StripDisallowed(b)
  {
    if a != [] {
      assert (a + b)[0] == a[0];
      assert (a + b)[1..] == a[1..] + b;
      StripAppend(a[1..], b);
    } else {
      assert a + b == b;
    }
  }

  lemma {:induction false} StripKeptIsIdentity(s: string)
    requires forall i :: 0 <= i < |s| ==> IsKept(s[i])
    ensures StripDisallowed(s) == s
  {
    if s != [] {
      KeptSuffix(s, 1);
      StripKeptIsIdentity(s[1..]);
    }
  }

  /** Characters that are not whitespace pass the second replace unchanged. */
  lemma {:induction false} CollapseAfterPlain(a: string, t: string)
    requires NoWhitespace(a)
    ensures CollapseWhitespace(a + t) == a + CollapseWhitespace(t)
  {
    if a != [] {
      assert (a + t)[0] == a[0];
      assert (a + t)[1..] == a[1..] + t;
      assert forall i :: 0 <= i < |a[1..]| ==> a[1..][i] == a[i + 1];
      CollapseAfterPlain(a[1..], t);
    } else {
      assert a + t == t;
    }
  }

  lemma {:induction false} DropWhitespaceRun(w: string, t: string)
    requires forall i :: 0 <= i < |w| ==> IsJsWhitespace(w[i])
    requires t == [] || !IsJsWhitespace(t[0])
    ensures DropLeadingWhitespace(w + t) == t
  {
    if w != [] {
      assert (w + t)[0] == w[0];
      assert (w + t)[1..] == w[1..] + t;
      assert forall i :: 0 <= i < |w[1..]| ==> w[1..][i] == w[i + 1];
      DropWhitespaceRun(w[1..], t);
    } else {
      assert w + t == t;
    }
  }

  /** A maximal run of whitespace becomes exactly one hyphen. Together with
      `CollapseAfterPlain` this fixes the second replace on every input. */
  lemma CollapseRun(w: string, t: string)
    requires w != [] && forall i :: 0 <= i < |w| ==> IsJsWhitespace(w[i])
    requires t == [] || !IsJsWhitespace(t[0])
    ensures CollapseWhitespace(w + t) == "-" + CollapseWhitespace(t)
  {
    assert (w + t)[0] == w[0];
    DropWhitespaceRun(w, t);
  }

  lemma KeptJoin(a: string, w: string, b: string)
    requires AllSafe(a) && AllSafe(b)
    requires forall i :: 0 <= i < |w| ==> w[i] == ' '
    ensures forall i :: 0 <= i < |a + w + b| ==> IsKept((a + w + b)[i])
  {
    var x := a + w + b;
    forall i | 0 <= i < |x| ensures IsKept(x[i]) {
      if i < |a| {
        assert x[i] == a[i];
      } else if i < |a| + |w| {
        assert x[i] == w[i - |a|];
      } else {
        assert x[i] == b[i - |a| - |w|];
      }
    }
  }

  lemma StripOfJoin(a: string, w: string, b: string)
    requires AllSafe(a) && AllSafe(b)
    requires forall i :: 0 <= i < |w| ==> w[i] == ' '
    ensures StripDisallowed(a + w + b) == a + w + b
  {
    KeptJoin(a, w, b);
    StripKeptIsIdentity(a + w + b);
  }

  lemma CollapseSpacesBeforeSafe(w: string, b: string)
    requires b != [] && AllSafe(b)
    requires w != [] && forall i :: 0 <= i < |w| ==> w[i] == ' '
    ensures CollapseWhitespace(w + b) == "-" + b
  {
    SafeHasNoWhitespace(b);
    assert forall i :: 0 <= i < |w| ==> IsJsWhitespace(w[i]);
    CollapseRun(w, b);
    CollapseWithoutWhitespaceIsIdentity(b);
  }

  lemma CollapseOfJoin(a: string, w: string, b: string)
    requires AllSafe(a) && b != [] && AllSafe(b)
    requires w != [] && forall i :: 0 <= i < |w| ==> w[i] == ' '
    ensures CollapseWhitespace(a + w + b) == a + "-" + b
  {
    AppendAssociative(a, w, b);
    AppendAssociative(a, "-", b);
    SafeHasNoWhitespace(a);
    CollapseAfterPlain(a, w + b);
    CollapseSpacesBeforeSafe(w, b);
  }

  lemma AppendAssociative(a: string, b: string, c: string)
    ensures a + b + c == a + (b + c)
  {
  }

  /** Two safe words with spaces between them are joined by one hyphen
      ("a  b" gives "a-b"). */
  lemma SanitizeJoinsWords(a: string, w: string, b: string)
    requires a != [] && b != [] && AllSafe(a) && AllSafe(b)
    requires w != [] && forall i :: 0 <= i < |w| ==> w[i] == ' '
    ensures Sanitize(Some(a + w + b)) == a + "-" + b
  {
    SanitizeOfNonEmpty(a + w + b);
    StripOfJoin(a, w, b);
    CollapseOfJoin(a, w, b);
  }

  /** A non-empty name sanitizes to its two replaces; the trim drops out. */
  lemma SanitizeOfNonEmpty(s: string)
    requires s != ""
    ensures Sanitize(Some(s)) == CollapseWhitespace(StripDisallowed(s))
  {
    var c := CollapseWhitespace(StripDisallowed(s));
    assert Sanitize(Some(s)) == Trim(c);
    TrimIsNoOp(s);
  }

  /** The letters, digits, underscores and dots of a name, in order. */
  function WordsAndDots(s: string): (r: string)
    ensures |r| <= |s|
  {
    if s == [] then []
    else if IsWordChar(s[0]) || s[0] == '.' then [s[0]] + WordsAndDots(s[1..])
    else WordsAndDots(s[1..])
  }

  lemma {:induction false} StripKeepsWordsAndDots(s: string)
    ensures WordsAndDots(StripDisallowed(s)) == WordsAndDots(s)
  {
    if s != [] {
      StripKeepsWordsAndDots(s[1..]);
    }
  }

  lemma {:induction false} DropWhitespaceKeepsWordsAndDots(s: string)
    ensures WordsAndDots(DropLeadingWhitespace(s)) == WordsAndDots(s)
  {
    if s != [] && IsJsWhitespace(s[0]) {
      WhitespaceIsNotSafe(s[0]);
      DropWhitespaceKeepsWordsAndDots(s[1..]);
    }
  }

  lemma WordsAndDotsCons(c: char, t: string)
    ensures WordsAndDots([c] + t) == if IsWordChar(c) || c == '.' then [c] + WordsAndDots(t) else WordsAndDots(t)
  {
    assert ([c] + t)[1..] == t;
  }

  lemma {:induction false} CollapseKeepsWordsAndDots(s: string)
    ensures WordsAndDots(CollapseWhitespace(s)) == WordsAndDots(s)
    decreases |s|
  {
    if s != [] {
      if IsJsWhitespace(s[0]) {
        var rest := DropLeadingWhitespace(s);
        CollapseKeepsWordsAndDots(rest);
        DropWhitespaceKeepsWordsAndDots(s);
        WordsAndDotsCons('-', CollapseWhitespace(rest));
      } else {
        CollapseKeepsWordsAndDots(s[1..]);
        WordsAndDotsCons(s[0], CollapseWhitespace(s[1..]));
        WordsAndDotsCons(s[0], s[1..]);
        assert s == [s[0]] + s[1..];
      }
    }
  }

  /** Sanitizing keeps every letter, digit, underscore and dot of a non-empty
      name, in order, and adds none: the only other character of the result is
      the hyphen. */
  lemma SanitizeKeepsWordsAndDots(s: string)
    requires s != ""
    ensures WordsAndDots(Sanitize(Some(s))) == WordsAndDots(s)
  {
    TrimIsNoOp(s);
    CollapseKeepsWordsAndDots(StripDisallowed(s));
    StripKeepsWordsAndDots(s);
  }

  /** A missing and an empty name both give "file". */
  lemma SanitizeOfMissing()
    ensures Sanitize(None) == "file"
    ensures Sanitize(Some("")) == "file"
  {
  }

  lemma {:induction false} StripKeepsLastKept(s: string)
    requires s != [] && IsKept(s[|s| - 1])
    ensures StripDisallowed(s) == StripDisallowed(s[..|s| - 1]) + [s[|s| - 1]]
  {
    if |s| > 1 {
      StripKeepsLastKept(s[1..]);
      assert s[1..][..|s| - 2] == s[..|s| - 1][1..];
    }
  }

  lemma {:induction false} CollapseEndsWithHyphen(t: string)
    requires t != [] && t[|t| - 1] == ' '
    ensures CollapseWhitespace(t) != [] && CollapseWhitespace(t)[|CollapseWhitespace(t)| - 1] == '-'
    decreases |t|
  {
    if IsJsWhitespace(t[0]) {
      var rest := DropLeadingWhitespace(t);
      assert CollapseWhitespace(t) == "-" + CollapseWhitespace(rest);
      if rest != [] {
        assert rest[|rest| - 1] == t[|t| - 1];
        CollapseEndsWithHyphen(rest);
      }
    } else {
      assert |t| > 1 by { assert t[0] != ' '; }
      assert t[1..][|t| - 2] == ' ';
      CollapseEndsWithHyphen(t[1..]);
      assert CollapseWhitespace(t) == [t[0]] + CollapseWhitespace(t[1..]);
    }
  }

  /** The trim comes too late to remove anything: a name that starts or ends
      with a space sanitizes to one that starts or ends with a hyphen
      ("  a  b " gives "-a-b-"). */
  lemma SanitizeKeepsOuterHyphens(s: string)
    requires s != ""
    ensures s[0] == ' ' ==> Sanitize(Some(s)) != "" && Sanitize(Some(s))[0] == '-'
    ensures s[|s| - 1] == ' ' ==>
      Sanitize(Some(s)) != "" && Sanitize(Some(s))[|Sanitize(Some(s))| - 1] == '-'
  {
    TrimIsNoOp(s);
    var t := StripDisallowed(s);
    if s[0] == ' ' {
      assert t == [' '] + StripDisallowed(s[1..]);
    }
    if s[|s| - 1] == ' ' {
      StripKeepsLastKept(s);
      CollapseEndsWithHyphen(t);
    }
  }

  // ---------------------------------------------------------------------
  // mimeToExt (main.ts:28-31)

  /** `mime.split(';')[0]`: the text before the first semicolon, or all of it. */
  function MediaType(mime: string): (r: string)
    ensures |r| <= |mime| && r == mime[..|r|]
    ensures ';' !in r
    ensures |r| < |mime| ==> mime[|r|] == ';'
  {
    if mime == [] || mime[0] == ';' then [] else [mime[0]] + MediaType(mime[1..])
  }

  const ExtensionTable: map<string, string> := map[
    "video/mp4" := "mp4", "video/webm" := "webm", "video/x-matroska" := "mkv",
    "video/quicktime" := "mov", "video/avi" := "avi", "image/jpeg" := "jpg",
    "image/png" := "png", "image/gif" := "gif"]

  const Extensions: set<string> := {"mp4", "webm", "mkv", "mov", "avi", "jpg", "png", "gif", "bin"}

  /** `mimeToExt(mime)`: the table entry of the media type, or "bin". */
  function MimeToExt(mime: string): (ext: string)
    ensures ext in Extensions
  {
    var t := MediaType(mime);
    if t in ExtensionTable then ExtensionTable[t] else "bin"
  }

  /** Every extension has at least three characters, all of `[A-Za-z0-9_.-]`,
      and none of them is a dot. */
  lemma ExtensionShape(mime: string)
    ensures |MimeToExt(mime)| >= 3 && AllSafe(MimeToExt(mime)) && '.' !in MimeToExt(mime)
  {
    var e := MimeToExt(mime);
    assert e in Extensions;
  }

  /** The media type of `a;b` is `a` when `a` has no semicolon. */
  lemma MediaTypeStopsAtSemicolon(a: string, b: string)
    requires ';' !in a
    ensures MediaType(a + ";" + b) == a
  {
    var m := a + ";" + b;
    var r := MediaType(m);
    assert m[|a|] == ';';
  }

  /** Parameters after the first `;` never matter. */
  lemma MimeToExtIgnoresParameters(a: string, b: string)
    requires ';' !in a
    ensures MimeToExt(a + ";" + b) == MimeToExt(a)
  {
    MediaTypeStopsAtSemicolon(a, b);
    assert MediaType(a) == a;
  }

  /** "bin" exactly for a media type outside the table. */
  lemma MimeToExtBinIff(mime: string)
    ensures MimeToExt(mime) == "bin" <==> MediaType(mime) !in ExtensionTable
  {
    if MediaType(mime) in ExtensionTable {
      assert ExtensionTable[MediaType(mime)] != "bin";
    }
  }

  /** Each of the eight table entries is found, also with parameters. */
  lemma MimeToExtTable(mime: string, params: string)
    requires mime in ExtensionTable
    ensures MimeToExt(mime) == ExtensionTable[mime]
    ensures MimeToExt(mime + ";" + params) == ExtensionTable[mime]
  {
    assert ';' !in mime;
    MimeToExtIgnoresParameters(mime, params);
    MediaTypeWithoutSemicolon(mime);
  }

  /** A type without a semicolon is its own media type. */
  lemma MediaTypeWithoutSemicolon(a: string)
    requires ';' !in a
    ensures MediaType(a) == a
  {
  }

  /** A missing Content-Type (`contentType || ""`) gives "bin". */
  lemma MimeToExtOfEmpty()
    ensures MimeToExt("") == "bin"
  {
  }

  // ---------------------------------------------------------------------
  // The object key (main.ts:159-160, main.ts:197)

  /** `sanitize(n) || token`: the fresh token replaces an empty sanitization. */
  function BaseName(name: Option<string>, token: string): (b: string)
    requires token != ""
    ensures b != ""
  {
    var s := Sanitize(name);
    if s != "" then s else token
  }

  /** `${sanitize(n) || token}.${mimeToExt(mime)}`. */
  function FileName(name: Option<string>, mime: string, token: string): (f: string)
    requires token != ""
    ensures |f| >= 5
  {
    ExtensionShape(mime);
    BaseName(name, token) + "." + MimeToExt(mime)
  }

  /** Index of the last `c` in `s`, or -1. */
  function LastIndexOf(s: string, c: char): (k: int)
    ensures -1 <= k < |s|
    ensures k >= 0 ==> s[k] == c
    ensures forall i :: k < i < |s| ==> s[i] != c
  {
    if s == [] then -1
    else if s[|s| - 1] == c then |s| - 1
    else LastIndexOf(s[..|s| - 1], c)
  }

  /** A file name split at its last dot into name and extension. */
  function SplitExtension(f: string): (o: Option<(string, string)>)
  {
    var k := LastIndexOf(f, '.');
    if k < 0 then None else Some((f[..k], f[k + 1..]))
  }

  lemma SplitExtensionOfJoin(b: string, e: string)
    requires '.' !in e
    ensures SplitExtension(b + "." + e) == Some((b, e))
  {
    var f := b + "." + e;
    var k := LastIndexOf(f, '.');
    assert f[|b|] == '.';
    assert forall i :: |b| < i < |f| ==> f[i] == e[i - |b| - 1];
    assert k == |b|;
    assert f[..k] == b;
    assert f[k + 1..] == e;
  }

  /** The file name reads back as its base and its extension. */
  lemma FileNameSplits(name: Option<string>, mime: string, token: string)
    requires token != ""
    ensures SplitExtension(FileName(name, mime, token)) == Some((BaseName(name, token), MimeToExt(mime)))
  {
    ExtensionShape(mime);
    SplitExtensionOfJoin(BaseName(name, token), MimeToExt(mime));
  }

  /** Which of the three bases a name gets: "file" for a missing or empty name,
      the token exactly when a non-empty name has no character of `[\w\-. ]`,
      and the sanitized name otherwise. */
  lemma BaseNameCases(name: Option<string>, token: string)
    requires token != ""
    ensures name.None? || name.value == "" ==> BaseName(name, token) == "file"
    ensures name.Some? && name.value != "" ==>
      (Sanitize(name) == "" <==> forall i :: 0 <= i < |name.value| ==> !IsKept(name.value[i]))
    ensures Sanitize(name) != "" ==> BaseName(name, token) == Sanitize(name)
    ensures Sanitize(name) == "" ==> BaseName(name, token) == token
  {
    if name.Some? && name.value != "" {
      SanitizeEmptyIff(name.value);
    }
  }

  /** With a token of safe characters (a UUID is hex digits and hyphens) the
      whole key is `[A-Za-z0-9_.-]`: no quote breaks the Content-Disposition
      header, no slash or whitespace reaches the path, and as it ends in a dot
      and an extension it is never a `.` or `..` path segment. */
  lemma FileNameIsSafe(name: Option<string>, mime: string, token: string)
    requires token != "" && AllSafe(token)
    ensures AllSafe(FileName(name, mime, token))
    ensures FileName(name, mime, token) != "." && FileName(name, mime, token) != ".."
  {
    var b, e := BaseName(name, token), MimeToExt(mime);
    var f := FileName(name, mime, token);
    ExtensionShape(mime);
    forall i | 0 <= i < |f| ensures IsSafe(f[i]) {
      if i < |b| {
        assert f[i] == b[i];
      } else if i > |b| {
        assert f[i] == e[i - |b| - 1];
      }
    }
  }

  /** A non-empty name with no character of `[\w\-. ]` (such as "!!!") gets
      the token. */
  lemma FileNameOfInvalidName(s: string, mime: string, token: string)
    requires token != "" && s != ""
    requires forall i :: 0 <= i < |s| ==> !IsKept(s[i])
    ensures FileName(Some(s), mime, token) == token + "." + MimeToExt(mime)
  {
    SanitizeEmptyIff(s);
  }

  /** A missing or empty name gets "file", never the token. */
  lemma FileNameOfMissingName(mime: string, token: string)
    requires token != ""
    ensures FileName(None, mime, token) == "file." + MimeToExt(mime)
    ensures FileName(Some(""), mime, token) == "file." + MimeToExt(mime)
  {
  }

  // ---------------------------------------------------------------------
  // Links and the download route (main.ts:178-179, 216-217, 229-230)

  const DownloadPrefix: string := "/download/"

  /** The path of the app link: `/download/${fileName}`. */
  function DownloadPath(fileName: string): string {
    DownloadPrefix + fileName
  }

  function AppLink(host: string, fileName: string): string {
    "https://" + host + DownloadPath(fileName)
  }

  function DirectUrl(publicHost: string, fileName: string): string {
    "https://" + publicHost + "/" + fileName
  }

  /** `s.substring(start)` for a start that is not negative. */
  function Substring(s: string, start: nat): string
  {
    if start >= |s| then "" else s[start..]
  }

  /** The download route: a path starting with "/download/" names the key
      `pathname.substring(10)`; any other path is not this route. */
  function DownloadKey(pathname: string): (k: Option<string>)
    ensures k.Some? <==> |pathname| >= |DownloadPrefix| && pathname[..|DownloadPrefix|] == DownloadPrefix
    ensures k.Some? ==> pathname == DownloadPrefix + k.value
  {
    if |pathname| >= |DownloadPrefix| && pathname[..|DownloadPrefix|] == DownloadPrefix
    then Some(Substring(pathname, 10))
    else None
  }

  /** The app link's path resolves back to the key it was built from. */
  lemma DownloadKeyRoundTrip(fileName: string)
    ensures DownloadKey(DownloadPath(fileName)) == Some(fileName)
  {
    var p := DownloadPath(fileName);
    assert p[..|DownloadPrefix|] == DownloadPrefix;
    assert p[10..] == fileName;
  }

  /** Only the app links' paths reach the route with a given key: if two paths
      give the same key they are the same path. */
  lemma DownloadKeyInjective(p: string, q: string)
    requires DownloadKey(p).Some? && DownloadKey(p) == DownloadKey(q)
    ensures p == q
  {
  }
}
