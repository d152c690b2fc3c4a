/**
 * The pure identifier-string logic of the versioned handle provider:
 * recognising a version suffix (`prefix/suffix.N`), stripping it, taking a
 * handle out of a URL, the `supports` test and the canonical URL form.
 */
module HandleStrings {
  import opened Wrappers

  const DOT: char := '.'
  const SLASH: char := '/'

  predicate IsDigit(c: char) { '0' <= c <= '9' }

  /** A non-empty string of decimal digits: what `\d+` matches. */
  predicate IsDigits(s: string) {
    |s| > 0 && forall i :: 0 <= i < |s| ==> IsDigit(s[i])
  }

  /** `String.lastIndexOf(char)`: -1 when `c` does not occur. */
  function LastIndexOf(s: string, c: char): (r: int)
    ensures -1 <= r < |s|
    ensures r == -1 <==> c !in s
    ensures 0 <= r ==> s[r] == c && c !in s[r + 1..]
  {
    if |s| == 0 then -1
    else if s[|s| - 1] == c then |s| - 1
    else
      var front := s[..|s| - 1];
      var r := LastIndexOf(front, c);
      assert s == front + [s[|s| - 1]];
      assert c in s <==> c in front;
      assert 0 <= r ==> s[r] == front[r] && s[r + 1..] == front[r + 1..] + [s[|s| - 1]];
      r
  }

  // ---------------------------------------------------------------------
  // Version suffixes
  // ---------------------------------------------------------------------

  /**
   * The string matches the regular expression `.*\/.*\.\d+` as a whole:
   * some `/` is followed, later, by a `.` after which only digits remain.
   */
  ghost predicate MatchesVersionPattern(s: string) {
    exists i, j :: 0 <= i < j < |s| && s[i] == SLASH && s[j] == DOT && IsDigits(s[j + 1..])
  }

  /** The executable form of the match: the digits must follow the LAST dot. */
  predicate IsVersioned(s: string) {
    var d := LastIndexOf(s, DOT);
    0 <= d && IsDigits(s[d + 1..]) && SLASH in s[..d]
  }

  /** A digit string never contains a dot. */
  lemma DigitsHaveNoDot(t: string)
    requires IsDigits(t)
    ensures DOT !in t
  {
    forall k | 0 <= k < |t| ensures t[k] != DOT {
      assert IsDigit(t[k]);
    }
  }

  /** The regular expression and its executable form agree on every string. */
  lemma VersionPatternIff(s: string)
    ensures IsVersioned(s) <==> MatchesVersionPattern(s)
  {
    var d := LastIndexOf(s, DOT);
    if IsVersioned(s) {
      var i :| 0 <= i < d && s[..d][i] == SLASH;
      assert s[i] == SLASH && s[d] == DOT && IsDigits(s[d + 1..]);
    }
    if MatchesVersionPattern(s) {
      var i, j :| 0 <= i < j < |s| && s[i] == SLASH && s[j] == DOT && IsDigits(s[j + 1..]);
      DigitsHaveNoDot(s[j + 1..]);
      assert d == j;
      assert s[..d][i] == SLASH;
    }
  }

  /**
   * `getCanonical`: strips the trailing `.N` of a string that matches the
   * version pattern and returns every other string unchanged.
   */
  function Canonical(s: string): (r: string)
    ensures r <= s
  {
    if IsVersioned(s) then s[..LastIndexOf(s, DOT)] else s
  }

  /**
   * What `getCanonical` promises in terms of the regular expression: a
   * string that does not match is returned unchanged; from one that matches
   * exactly a dot and the trailing digits are removed, and the slash stays.
   */
  lemma CanonicalStripsVersion(s: string)
    ensures !MatchesVersionPattern(s) ==> Canonical(s) == s
    ensures MatchesVersionPattern(s) ==>
      var r := Canonical(s);
      |r| < |s| && s[|r|] == DOT && IsDigits(s[|r| + 1..]) && SLASH in r
  {
    VersionPatternIff(s);
  }

  /** The characters after the last dot: the version digits of a versioned handle. */
  function VersionSuffix(s: string): (t: string)
    requires 0 <= LastIndexOf(s, DOT)
    ensures DOT !in t
  {
    s[LastIndexOf(s, DOT) + 1..]
  }

  /** A versioned string is its canonical form, a dot and its version digits. */
  lemma CanonicalSplitsVersioned(s: string)
    requires MatchesVersionPattern(s)
    ensures 0 <= LastIndexOf(s, DOT)
    ensures s == Canonical(s) + [DOT] + VersionSuffix(s) && IsDigits(VersionSuffix(s))
  {
    VersionPatternIff(s);
    var d := LastIndexOf(s, DOT);
    assert s == s[..d] + [s[d]] + s[d + 1..];
  }

  /** The last `c` of `x + [c] + t`, when `t` has no `c`, is the one just after `x`. */
  lemma LastIndexOfAppended(x: string, c: char, t: string)
    requires c !in t
    ensures LastIndexOf(x + [c] + t, c) == |x|
  {
    var s := x + [c] + t;
    assert s[|x|] == c;
    assert s[|x| + 1..] == t;
  }

  /** The last dot of `x.t`, when `t` is made of digits, is the one just after `x`. */
  lemma LastDotOfSuffixed(x: string, t: string)
    requires IsDigits(t)
    ensures LastIndexOf(x + [DOT] + t, DOT) == |x|
    ensures VersionSuffix(x + [DOT] + t) == t
  {
    DigitsHaveNoDot(t);
    LastIndexOfAppended(x, DOT, t);
    assert (x + [DOT] + t)[|x| + 1..] == t;
  }

  /** Stripping the suffix of `x.t` gives back `x` whenever `x` contains a slash. */
  lemma CanonicalOfSuffixed(x: string, t: string)
    requires SLASH in x && IsDigits(t)
    ensures MatchesVersionPattern(x + [DOT] + t)
    ensures Canonical(x + [DOT] + t) == x
  {
    var s := x + [DOT] + t;
    LastDotOfSuffixed(x, t);
    assert s[..|x|] == x;
    VersionPatternIff(s);
  }

  /**
   * `getCanonical` is not idempotent: a handle with two numeric suffixes
   * loses one per application.
   */
  lemma CanonicalNotIdempotent()
    ensures Canonical("a/b.1.2") == "a/b.1"
    ensures Canonical(Canonical("a/b.1.2")) == "a/b"
  {
    CanonicalOfSuffixed("a/b.1", "2");
    assert "a/b.1" + [DOT] + "2" == "a/b.1.2";
    CanonicalOfSuffixed("a/b", "1");
    assert "a/b" + [DOT] + "1" == "a/b.1";
  }

  // ---------------------------------------------------------------------
  // Decimal version numbers
  // ---------------------------------------------------------------------

  function DigitChar(d: nat): char
    requires d < 10
  {
    ('0' as int + d) as char
  }

  function DigitValue(c: char): nat
    requires IsDigit(c)
  {
    c as int - '0' as int
  }

  /** Java's `"" + n` for a non-negative `int`: decimal, no leading zeros. */
  function NatToDigits(n: nat): (r: string)
    ensures IsDigits(r)
    ensures 1 < |r| ==> r[0] != '0'
    decreases n
  {
    if n < 10 then [DigitChar(n)]
    else NatToDigits(n / 10) + [DigitChar(n % 10)]
  }

  /** `Integer.parseInt` of a digit string (overflow is not modelled). */
  function DigitsToNat(s: string): nat
    requires forall i :: 0 <= i < |s| ==> IsDigit(s[i])
  {
    if |s| == 0 then 0
    else DigitsToNat(s[..|s| - 1]) * 10 + DigitValue(s[|s| - 1])
  }

  /** Parsing the decimal form of a number gives the number back. */
  lemma {:induction false} DigitsRoundTrip(n: nat)
    ensures DigitsToNat(NatToDigits(n)) == n
  {
    var s := NatToDigits(n);
    if n >= 10 {
      DigitsRoundTrip(n / 10);
      assert s[..|s| - 1] == NatToDigits(n / 10);
    }
  }

  /** `canonical + DOT + n`: the handle of version `n` of a work. */
  function VersionedHandle(canonical: string, n: nat): (r: string)
  {
    canonical + [DOT] + NatToDigits(n)
  }

  /** The string ends in a dot followed by digits, so its number can be parsed. */
  predicate HasVersionNumber(s: string) {
    0 <= LastIndexOf(s, DOT) && IsDigits(VersionSuffix(s))
  }

  /**
   * `Integer.parseInt(s.substring(s.lastIndexOf(".") + 1))`. Leading zeros
   * are accepted, so printing the number back gives the same digits exactly
   * when there are none.
   */
  function VersionNumber(s: string): (n: nat)
    requires HasVersionNumber(s)
    ensures NatToDigits(n) == VersionSuffix(s) <==> |VersionSuffix(s)| == 1 || VersionSuffix(s)[0] != '0'
  {
    DigitsPrintBack(VersionSuffix(s));
    DigitsToNat(VersionSuffix(s))
  }

  /** A digit string that does not start with `0` denotes a positive number. */
  lemma {:induction false} DigitsPositive(t: string)
    requires IsDigits(t) && t[0] != '0'
    ensures DigitsToNat(t) > 0
  {
    if |t| > 1 {
      DigitsPositive(t[..|t| - 1]);
    }
  }

  /** Printing a parsed digit string gives it back when it has no leading zero. */
  lemma {:induction false} DigitsPrintBack(t: string)
    requires IsDigits(t)
    ensures |t| == 1 || t[0] != '0' ==> NatToDigits(DigitsToNat(t)) == t
  {
    var front := t[..|t| - 1];
    var last := t[|t| - 1];
    if |t| > 1 && t[0] != '0' {
      DigitsPositive(front);
      DigitsPrintBack(front);
      var n := DigitsToNat(t);
      assert n / 10 == DigitsToNat(front) && n % 10 == DigitValue(last);
      assert t == front + [last];
    }
  }

  /** A string that matches the version pattern has a number to parse. */
  lemma VersionedHasVersionNumber(s: string)
    requires IsVersioned(s)
    ensures HasVersionNumber(s)
  {
    VersionPatternIff(s);
    CanonicalSplitsVersioned(s);
  }

  /**
   * Composing a canonical handle with a version number and parsing the result
   * gives both parts back.
   */
  lemma VersionedHandleRoundTrip(x: string, n: nat)
    requires SLASH in x
    ensures MatchesVersionPattern(VersionedHandle(x, n))
    ensures Canonical(VersionedHandle(x, n)) == x
    ensures HasVersionNumber(VersionedHandle(x, n))
    ensures VersionNumber(VersionedHandle(x, n)) == n
  {
    CanonicalOfSuffixed(x, NatToDigits(n));
    LastDotOfSuffixed(x, NatToDigits(n));
    DigitsRoundTrip(n);
  }

  /** Appending a version number always leaves a parsable number, slash or not. */
  lemma VersionedHandleHasNumber(x: string, n: nat)
    ensures HasVersionNumber(VersionedHandle(x, n))
    ensures VersionNumber(VersionedHandle(x, n)) == n
  {
    LastDotOfSuffixed(x, NatToDigits(n));
    DigitsRoundTrip(n);
  }

  /**
   * A handle with a slash and no version suffix, such as `123456789/42`, is
   * never the versioned handle of any canonical handle.
   */
  lemma PlainHandleIsNotVersioned(x: string, n: nat, plain: string)
    requires SLASH in plain && !IsVersioned(plain)
    ensures VersionedHandle(x, n) != plain
  {
    var digits := NatToDigits(n);
    if SLASH in x {
      VersionedHandleRoundTrip(x, n);
      VersionPatternIff(VersionedHandle(x, n));
    } else {
      assert forall k :: 0 <= k < |digits| ==> digits[k] != SLASH by {
        forall k | 0 <= k < |digits| ensures digits[k] != SLASH {
          assert IsDigit(digits[k]);
        }
      }
      assert SLASH !in VersionedHandle(x, n);
    }
  }

  // ---------------------------------------------------------------------
  // Handles inside URLs
  // ---------------------------------------------------------------------

  /** Splits `s` at every `c`, keeping empty pieces. */
  function SplitOn(s: string, c: char): (parts: seq<string>)
    ensures |parts| > 0
    ensures forall k :: 0 <= k < |parts| ==> c !in parts[k]
    ensures |parts| == 1 <==> c !in s
    decreases |s|
  {
    var d := LastIndexOf(s, c);
    if d < 0 then [s]
    else
      var front := SplitOn(s[..d], c);
      var parts := front + [s[d + 1..]];
      assert forall k :: 0 <= k < |front| ==> parts[k] == front[k];
      assert parts[|front|] == s[d + 1..];
      parts
  }

  /** Joins pieces with `c` between them. */
  function JoinWith(parts: seq<string>, c: char): string
  {
    if |parts| == 0 then ""
    else if |parts| == 1 then parts[0]
    else JoinWith(parts[..|parts| - 1], c) + [c] + parts[|parts| - 1]
  }

  /** Splitting and joining again gives back the original string. */
  lemma {:induction false} SplitJoin(s: string, c: char)
    ensures JoinWith(SplitOn(s, c), c) == s
    decreases |s|
  {
    var d := LastIndexOf(s, c);
    if 0 <= d {
      var front := SplitOn(s[..d], c);
      SplitJoin(s[..d], c);
      var parts := front + [s[d + 1..]];
      assert parts[..|parts| - 1] == front;
      assert s == s[..d] + [c] + s[d + 1..];
    }
  }

  /** Removes the empty strings at the end, as Java's `split` does. */
  function DropTrailingEmpty(parts: seq<string>): (r: seq<string>)
    ensures r <= parts
    ensures |r| > 0 ==> r[|r| - 1] != ""
    ensures forall k :: |r| <= k < |parts| ==> parts[k] == ""
  {
    if |parts| == 0 then []
    else if parts[|parts| - 1] != "" then parts
    else DropTrailingEmpty(parts[..|parts| - 1])
  }

  /** `url.split("/")` for a URL that contains a slash. */
  function UrlSegments(url: string): seq<string>
  {
    DropTrailingEmpty(SplitOn(url, SLASH))
  }

  /**
   * `retrieveHandleOutOfUrl`: `None` (Java's null) when there is no slash;
   * otherwise the last two segments joined by a slash. A URL with a slash
   * but fewer than two segments (`a/`, `/`) makes the source index out of
   * bounds; the precondition excludes it.
   */
  function RetrieveHandleOutOfUrl(url: string): (r: Option<string>)
    requires SLASH in url ==> |UrlSegments(url)| >= 2
    ensures r.None? <==> SLASH !in url
    ensures r.Some? ==> exists a, b :: r.value == a + [SLASH] + b && SLASH !in a && SLASH !in b && b != ""
  {
    if SLASH !in url then None
    else
      var parts := UrlSegments(url);
      var n := |parts|;
      assert parts[n - 2] == SplitOn(url, SLASH)[n - 2];
      assert parts[n - 1] == SplitOn(url, SLASH)[n - 1];
      Some(parts[n - 2] + [SLASH] + parts[n - 1])
  }

  /** `url` without the slashes at its end. */
  function TrimTrailingSlashes(url: string): (r: string)
    ensures r <= url
    ensures r == [] || r[|r| - 1] != SLASH
  {
    if |url| > 0 && url[|url| - 1] == SLASH then TrimTrailingSlashes(url[..|url| - 1]) else url
  }

  /** Dropping the empty trailing pieces is trimming the trailing separators. */
  lemma {:induction false} JoinDropTrim(parts: seq<string>)
    requires |parts| > 0
    requires forall k :: 0 <= k < |parts| ==> SLASH !in parts[k]
    ensures JoinWith(DropTrailingEmpty(parts), SLASH) == TrimTrailingSlashes(JoinWith(parts, SLASH))
  {
    var n := |parts|;
    var last := parts[n - 1];
    var joined := JoinWith(parts, SLASH);
    if last != "" {
      assert joined[|joined| - |last|..] == last;
      assert joined[|joined| - 1] == last[|last| - 1];
    } else if n > 1 {
      var front := parts[..n - 1];
      assert joined[..|joined| - 1] == JoinWith(front, SLASH);
      JoinDropTrim(front);
    }
  }

  /** A joined string ends with its last two pieces and the separator between them. */
  lemma JoinEndsWithLastTwo(parts: seq<string>, c: char)
    requires |parts| >= 2
    ensures var tail := parts[|parts| - 2] + [c] + parts[|parts| - 1];
      var joined := JoinWith(parts, c);
      |tail| <= |joined| && joined[|joined| - |tail|..] == tail &&
      (|tail| == |joined| || joined[|joined| - |tail| - 1] == c)
  {
    var n := |parts|;
    var front := parts[..n - 1];
    assert front[|front| - 1] == parts[n - 2];
    if n > 2 {
      assert front[..n - 2] == parts[..n - 2];
      var before := JoinWith(parts[..n - 2], c);
      assert JoinWith(front, c) == before + [c] + parts[n - 2];
      assert JoinWith(parts, c) == before + [c] + (parts[n - 2] + [c] + parts[n - 1]);
    } else {
      assert front[..1] == [parts[0]];
    }
  }

  /**
   * The handle taken out of a URL is the tail of the URL once its trailing
   * slashes are trimmed, and either the whole of it or preceded there by a
   * slash: `http://hdl.handle.net/123/456/` gives `123/456`, never `23/456`.
   */
  lemma RetrievedIsTailOfUrl(url: string)
    requires SLASH in url && |UrlSegments(url)| >= 2
    ensures var r := RetrieveHandleOutOfUrl(url).value;
      var trimmed := TrimTrailingSlashes(url);
      |r| <= |trimmed| && trimmed[|trimmed| - |r|..] == r &&
      (|r| == |trimmed| || trimmed[|trimmed| - |r| - 1] == SLASH)
  {
    var segments := UrlSegments(url);
    RetrieveIsLastTwo(url);
    SegmentsJoinToTrimmed(url);
    JoinEndsWithLastTwo(segments, SLASH);
  }

  /** The handle taken out of a URL is its last two segments joined by a slash. */
  lemma RetrieveIsLastTwo(url: string)
    requires SLASH in url && |UrlSegments(url)| >= 2
    ensures var segments := UrlSegments(url);
      RetrieveHandleOutOfUrl(url) == Some(segments[|segments| - 2] + [SLASH] + segments[|segments| - 1])
  {
  }

  /** Joining the segments of a URL gives the URL without its trailing slashes. */
  lemma SegmentsJoinToTrimmed(url: string)
    ensures JoinWith(UrlSegments(url), SLASH) == TrimTrailingSlashes(url)
  {
    SplitJoin(url, SLASH);
    JoinDropTrim(SplitOn(url, SLASH));
  }

  /** Splitting `x/t`, when `t` has no slash, splits `x` and adds `t`. */
  lemma SplitOnAppended(x: string, t: string)
    requires SLASH !in t
    ensures SplitOn(x + [SLASH] + t, SLASH) == SplitOn(x, SLASH) + [t]
  {
    var s := x + [SLASH] + t;
    LastIndexOfAppended(x, SLASH, t);
    assert s[..|x|] == x && s[|x| + 1..] == t;
  }

  /**
   * A URL whose last two segments are non-empty yields exactly those two
   * segments, whatever precedes them: `http://hdl.handle.net/123/456` gives
   * `123/456`.
   */
  lemma RetrieveLastTwoSegments(host: string, a: string, b: string)
    requires SLASH !in a && SLASH !in b && b != ""
    ensures RetrieveHandleOutOfUrl(host + [SLASH] + a + [SLASH] + b) == Some(a + [SLASH] + b)
  {
    var front := host + [SLASH] + a;
    SplitOnAppended(host, a);
    SplitOnAppended(front, b);
    var parts := SplitOn(host, SLASH) + [a] + [b];
    assert UrlSegments(front + [SLASH] + b) == parts;
  }

  // ---------------------------------------------------------------------
  // supports(String) and the canonical URL form
  // ---------------------------------------------------------------------

  /** The scheme prefixes `supports` recognises, in the order it tries them. */
  const SupportedPrefixes: seq<string> := ["info:hdl", "hdl", "http://"]

  predicate HasSupportedPrefix(identifier: string) {
    exists k :: 0 <= k < |SupportedPrefixes| && SupportedPrefixes[k] <= identifier
  }

  /**
   * `supports(String)`: a recognised scheme prefix, or a handle that can be
   * taken out of the string as out of a URL, which is any string with a
   * slash.
   */
  method Supports(identifier: string) returns (supported: bool)
    requires !HasSupportedPrefix(identifier) && SLASH in identifier ==> |UrlSegments(identifier)| >= 2
    ensures supported <==> HasSupportedPrefix(identifier) || SLASH in identifier
  {
    for k := 0 to |SupportedPrefixes|
      invariant forall m :: 0 <= m < k ==> !(SupportedPrefixes[m] <= identifier)
    {
      if SupportedPrefixes[k] <= identifier {
        return true;
      }
    }
    var outOfUrl := RetrieveHandleOutOfUrl(identifier);
    supported := outOfUrl.Some?;
  }

  /** The URL prefix used when `handle.canonical.prefix` is unset or empty. */
  const DefaultCanonicalUrlPrefix: string := "http://hdl.handle.net/"

  /** The configured canonical URL prefix, or the default one. */
  function CanonicalUrlPrefix(configured: Option<string>): (p: string)
    ensures p != ""
    ensures configured.Some? && configured.value != "" ==> p == configured.value
    ensures configured.None? || configured.value == "" ==> p == DefaultCanonicalUrlPrefix
  {
    if configured.None? || configured.value == "" then DefaultCanonicalUrlPrefix else configured.value
  }

  /** `getCanonicalForm`: the URL under which a handle is published. */
  function CanonicalForm(configured: Option<string>, handle: string): (r: string)
    ensures |handle| < |r|
    ensures r[|r| - |handle|..] == handle
    ensures r[..|r| - |handle|] == CanonicalUrlPrefix(configured)
  {
    CanonicalUrlPrefix(configured) + handle
  }

  /** Two handles share a canonical URL only if they are the same handle. */
  lemma CanonicalFormInjective(configured: Option<string>, h1: string, h2: string)
    ensures CanonicalForm(configured, h1) == CanonicalForm(configured, h2) <==> h1 == h2
  {
    var r1, r2 := CanonicalForm(configured, h1), CanonicalForm(configured, h2);
    if r1 == r2 {
      var p := CanonicalUrlPrefix(configured);
      assert h1 == r1[|p|..];
    }
  }
}
