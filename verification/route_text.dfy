/**
 * Cleaning of the free-text route columns of the stop and route tables.
 *
 * The scripts rewrite these columns with regular expressions; each rewrite is
 * modelled here as an explicit pass over the characters, following the
 * leftmost, non-overlapping scan that `re.sub` performs.
 */
module RouteText {

  /** Python's whitespace: what `str.strip()` removes and what `\s` matches in a str pattern. */
  predicate IsWhitespace(c: char) {
    c == ' ' || ('\t' <= c <= '\r') || ('\U{1C}' <= c <= '\U{1F}') || c == '\U{85}' || c == '\U{A0}'
    || c == '\U{1680}' || ('\U{2000}' <= c <= '\U{200A}') || c == '\U{2028}' || c == '\U{2029}'
    || c == '\U{202F}' || c == '\U{205F}' || c == '\U{3000}'
  }

  /** `\w`, restricted to ASCII letters, digits and the underscore. */
  predicate IsWordChar(c: char) {
    ('A' <= c <= 'Z') || ('a' <= c <= 'z') || ('0' <= c <= '9') || c == '_'
  }

  /** The characters that survive the first cleaning step: `[A-Z0-9, ]`. */
  predicate IsRouteChar(c: char) {
    ('A' <= c <= 'Z') || ('0' <= c <= '9') || c == ',' || c == ' '
  }

  predicate IsComma(c: char) { c == ',' }

  predicate IsPrefixFiller(c: char) { IsWhitespace(c) || c == '-' }

  predicate IsLowerAscii(c: char) { 'a' <= c <= 'z' }

  function UpperChar(c: char): char {
    if IsLowerAscii(c) then (c as int - 32) as char else c
  }

  /** `str.upper()` on ASCII letters. */
  function Upper(s: string): string {
    seq(|s|, i requires 0 <= i < |s| => UpperChar(s[i]))
  }

  predicate AllRouteChars(s: string) {
    forall i :: 0 <= i < |s| ==> IsRouteChar(s[i])
  }

  predicate NoLowerAscii(s: string) {
    forall i :: 0 <= i < |s| ==> !IsLowerAscii(s[i])
  }

  /** No whitespace character stands directly before or after a comma. */
  predicate NoSpaceNextToComma(s: string) {
    forall i :: 0 <= i < |s| - 1 ==>
      !(IsWhitespace(s[i]) && s[i + 1] == ',') && !(s[i] == ',' && IsWhitespace(s[i + 1]))
  }

  predicate NoOuterWhitespace(s: string) {
    s == [] || (!IsWhitespace(s[0]) && !IsWhitespace(s[|s| - 1]))
  }

  /** Removes the longest prefix whose characters satisfy `drop` (`lstrip`). */
  function TrimLeft(s: string, drop: char -> bool): (r: string)
    ensures |r| <= |s| && r == s[|s| - |r|..]
    ensures forall i :: 0 <= i < |s| - |r| ==> drop(s[i])
    ensures r == [] || !drop(r[0])
    decreases |s|
  {
    if s != [] && drop(s[0]) then TrimLeft(s[1..], drop) else s
  }

  /** Removes the longest suffix whose characters satisfy `drop` (`rstrip`). */
  function TrimRight(s: string, drop: char -> bool): (r: string)
    ensures |r| <= |s| && r == s[..|r|]
    ensures forall i :: |r| <= i < |s| ==> drop(s[i])
    ensures r == [] || !drop(r[|r| - 1])
    decreases |s|
  {
    if s != [] && drop(s[|s| - 1]) then TrimRight(s[..|s| - 1], drop) else s
  }

  /** `str.strip()`. */
  function Strip(s: string): (r: string)
    ensures NoOuterWhitespace(r)
  {
    TrimRight(TrimLeft(s, IsWhitespace), IsWhitespace)
  }

  /** Number of leading characters satisfying `p`. */
  function RunLength(s: string, p: char -> bool): (n: nat)
    ensures n <= |s|
    ensures forall i :: 0 <= i < n ==> p(s[i])
    ensures n < |s| ==> !p(s[n])
    decreases |s|
  {
    if s != [] && p(s[0]) then 1 + RunLength(s[1..], p) else 0
  }

  // ---------------------------------------------------------------------------
  // clean_route_ser, step 1: re.sub(r'[^A-Z0-9, ]', '', str(s).upper())

  function KeepRouteChars(s: string): (r: string)
    ensures AllRouteChars(r)
    ensures |r| <= |s|
    ensures AllRouteChars(s) ==> r == s
    decreases |s|
  {
    if s == [] then []
    else (if IsRouteChar(s[0]) then [s[0]] else []) + KeepRouteChars(s[1..])
  }

  /**
   * The filter keeps every route character of the input, as often as it
   * occurs there, and nothing else.
   */
  lemma {:induction false} KeepRouteCharsCounts(s: string)
    ensures forall c :: multiset(KeepRouteChars(s))[c] == (if IsRouteChar(c) then multiset(s)[c] else 0)
    decreases |s|
  {
    if s != [] {
      KeepRouteCharsCounts(s[1..]);
      assert s == [s[0]] + s[1..];
    }
  }

  /**
   * The filter works piece by piece, so the kept characters stay in input
   * order: filtering a concatenation concatenates the filtered parts.
   */
  lemma {:induction false} KeepRouteCharsConcat(a: string, b: string)
    ensures KeepRouteChars(a + b) == KeepRouteChars(a) + KeepRouteChars(b)
    decreases |a|
  {
    if a == [] {
      assert a + b == b;
    } else {
      var head := if IsRouteChar(a[0]) then [a[0]] else [];
      assert (a + b)[0] == a[0] && (a + b)[1..] == a[1..] + b;
      KeepRouteCharsConcat(a[1..], b);
      assert head + (KeepRouteChars(a[1..]) + KeepRouteChars(b)) == (head + KeepRouteChars(a[1..])) + KeepRouteChars(b);
    }
  }

  // ---------------------------------------------------------------------------
  // clean_route_ser, step 2: re.sub(r'CITYLINK\s+(\w+)', r'\1', cleaned)

  const CityLink: string := "CITYLINK"

  /** The pattern `CITYLINK\s+\w+` matches at the start of `s`. */
  predicate CityLinkWordAt(s: string) {
    |s| > 8 && s[..8] == CityLink
    && var k := 8 + RunLength(s[8..], IsWhitespace);
       k > 8 && k < |s| && IsWordChar(s[k])
  }

  /** Every character of `r` is a character of `s`. */
  predicate CharsFrom(r: string, s: string) {
    forall i :: 0 <= i < |r| ==> r[i] in s
  }

  function ReplaceCityLinkWords(s: string): (r: string)
    ensures |r| <= |s|
    decreases |s|
  {
    if s == [] then []
    else if CityLinkWordAt(s) then
      var k := 8 + RunLength(s[8..], IsWhitespace);
      var w := RunLength(s[k..], IsWordChar);
      s[k..k + w] + ReplaceCityLinkWords(s[k + w..])
    else
      [s[0]] + ReplaceCityLinkWords(s[1..])
  }

  /** The rewrite only keeps or drops characters: it never introduces one. */
  lemma {:induction false} ReplaceCityLinkWordsChars(s: string)
    ensures CharsFrom(ReplaceCityLinkWords(s), s)
    decreases |s|, 1
  {
    if s == [] {
    } else if CityLinkWordAt(s) {
      WordChars(s);
    } else {
      var rest := ReplaceCityLinkWords(s[1..]);
      ReplaceCityLinkWordsChars(s[1..]);
      SuffixCharsFrom(rest, s, 1);
      ConsCharsFrom(s, rest);
    }
  }

  /** The case where `s` starts with a CityLink word: the kept word and the rewritten rest come from `s`. */
  lemma {:induction false} WordChars(s: string)
    requires s != [] && CityLinkWordAt(s)
    ensures CharsFrom(ReplaceCityLinkWords(s), s)
    decreases |s|, 0
  {
    var k := 8 + RunLength(s[8..], IsWhitespace);
    var w := RunLength(s[k..], IsWordChar);
    ReplaceCityLinkWordsChars(s[k + w..]);
    WordStep(s, k, w, ReplaceCityLinkWords(s[k + w..]));
  }

  // ---------------------------------------------------------------------------
  // clean_route_ser, step 3: re.sub(r'\s*,\s*', ',', cleaned).strip(',')

  /** The pattern `\s*,` matches at the start of `s`. */
  predicate CommaAfterSpaces(s: string) {
    var k := RunLength(s, IsWhitespace);
    k < |s| && s[k] == ','
  }

  function NormaliseCommas(s: string): (r: string)
    ensures |r| <= |s|
    decreases |s|
  {
    if s == [] then []
    else if CommaAfterSpaces(s) then
      var k := RunLength(s, IsWhitespace);
      [','] + NormaliseCommas(s[k + 1..][RunLength(s[k + 1..], IsWhitespace)..])
    else
      [s[0]] + NormaliseCommas(s[1..])
  }

  /**
   * After the comma rewrite no whitespace stands beside a comma, and every
   * character of the result comes from the input.
   */
  lemma {:induction false} NormaliseCommasShape(s: string)
    ensures CharsFrom(NormaliseCommas(s), s)
    ensures NoSpaceNextToComma(NormaliseCommas(s))
    ensures var r := NormaliseCommas(s); r != [] && r[0] == ',' ==> CommaAfterSpaces(s)
    ensures var r := NormaliseCommas(s); r != [] && IsWhitespace(r[0]) ==> s != [] && IsWhitespace(s[0])
    decreases |s|
  {
    if s == [] {
    } else if CommaAfterSpaces(s) {
      var k := RunLength(s, IsWhitespace);
      var next := s[k + 1..][RunLength(s[k + 1..], IsWhitespace)..];
      NormaliseCommasShape(next);
      CommaCase(s, k, next);
    } else {
      NormaliseCommasShape(s[1..]);
      PlainCase(s);
    }
  }

  /** The step of `NormaliseCommasShape` where `s` starts with `\s*,\s*`. */
  lemma CommaCase(s: string, k: nat, next: string)
    requires k == RunLength(s, IsWhitespace) && CommaAfterSpaces(s)
    requires next == s[k + 1..][RunLength(s[k + 1..], IsWhitespace)..]
    requires CharsFrom(NormaliseCommas(next), next) && NoSpaceNextToComma(NormaliseCommas(next))
    requires var r := NormaliseCommas(next); r != [] && IsWhitespace(r[0]) ==> next != [] && IsWhitespace(next[0])
    ensures CharsFrom(NormaliseCommas(s), s) && NoSpaceNextToComma(NormaliseCommas(s))
    ensures var r := NormaliseCommas(s); r != [] && r[0] == ','
    ensures var r := NormaliseCommas(s); r != [] && IsWhitespace(r[0]) ==> s != [] && IsWhitespace(s[0])
  {
    assert NormaliseCommas(s) == [','] + NormaliseCommas(next);
    CommaStep(s, k, next, NormaliseCommas(next));
  }

  /** The step of `NormaliseCommasShape` where `s` does not start with `\s*,`. */
  lemma PlainCase(s: string)
    requires s != [] && !CommaAfterSpaces(s)
    requires CharsFrom(NormaliseCommas(s[1..]), s[1..]) && NoSpaceNextToComma(NormaliseCommas(s[1..]))
    requires var r := NormaliseCommas(s[1..]); r != [] && r[0] == ',' ==> CommaAfterSpaces(s[1..])
    ensures CharsFrom(NormaliseCommas(s), s) && NoSpaceNextToComma(NormaliseCommas(s))
    ensures var r := NormaliseCommas(s); r != [] && r[0] != ',' && r[0] == s[0]
  {
    assert NormaliseCommas(s) == [s[0]] + NormaliseCommas(s[1..]);
    PlainStep(s, NormaliseCommas(s[1..]));
  }

  /** Text that already has no whitespace beside a comma is a fixed point of the rewrite. */
  lemma {:induction false} NormaliseCommasKeepsClean(s: string)
    requires NoSpaceNextToComma(s)
    ensures NormaliseCommas(s) == s
    decreases |s|
  {
    if s != [] {
      SliceNoSpaceNextToComma(s, 1);
      NormaliseCommasKeepsClean(s[1..]);
      if CommaAfterSpaces(s) {
        CleanCommaStep(s);
      }
      assert s == [s[0]] + s[1..];
    }
  }

  lemma CleanCommaStep(s: string)
    requires NoSpaceNextToComma(s) && CommaAfterSpaces(s)
    ensures s[0] == ','
    ensures NormaliseCommas(s) == [','] + NormaliseCommas(s[1..])
  {
    var k := RunLength(s, IsWhitespace);
    if k > 0 {
      SpacesBeforeComma(s, k);
      assert false;
    }
    if |s| > 1 && IsWhitespace(s[1]) {
      assert false;
    }
    assert s[k + 1..][RunLength(s[k + 1..], IsWhitespace)..] == s[1..];
  }

  lemma SpacesBeforeComma(s: string, k: nat)
    requires 0 < k < |s| && k == RunLength(s, IsWhitespace) && s[k] == ','
    ensures !NoSpaceNextToComma(s)
  {
    assert IsWhitespace(s[k - 1]) && s[k] == ',';
  }

  lemma SliceNoSpaceNextToComma(s: string, k: nat)
    requires k <= |s| && NoSpaceNextToComma(s)
    ensures NoSpaceNextToComma(s[k..])
  {
    var t := s[k..];
    forall i | 0 <= i < |t| - 1
      ensures !(IsWhitespace(t[i]) && t[i + 1] == ',') && !(t[i] == ',' && IsWhitespace(t[i + 1]))
    {
      assert t[i] == s[k + i] && t[i + 1] == s[k + i + 1];
    }
  }

  /** Applying the comma rewrite twice gives what applying it once gives. */
  lemma NormaliseCommasIdempotent(s: string)
    ensures NormaliseCommas(NormaliseCommas(s)) == NormaliseCommas(s)
  {
    NormaliseCommasShape(s);
    NormaliseCommasKeepsClean(NormaliseCommas(s));
  }

  lemma SuffixCharsFrom(r: string, s: string, k: nat)
    requires k <= |s| && CharsFrom(r, s[k..])
    ensures CharsFrom(r, s)
  {
    forall i | 0 <= i < |r| ensures r[i] in s {
      var j :| 0 <= j < |s[k..]| && s[k..][j] == r[i];
      assert s[k + j] == r[i];
    }
  }

  lemma ConsNoSpaceNextToComma(c: char, rest: string)
    requires NoSpaceNextToComma(rest)
    requires rest != [] ==> !(IsWhitespace(c) && rest[0] == ',') && !(c == ',' && IsWhitespace(rest[0]))
    ensures NoSpaceNextToComma([c] + rest)
  {
    var t := [c] + rest;
    forall i | 0 <= i < |t| - 1
      ensures !(IsWhitespace(t[i]) && t[i + 1] == ',') && !(t[i] == ',' && IsWhitespace(t[i + 1]))
    {
      if i > 0 {
        assert t[i] == rest[i - 1] && t[i + 1] == rest[i];
      }
    }
  }

  lemma CommaStep(s: string, k: nat, next: string, rest: string)
    requires k == RunLength(s, IsWhitespace) && CommaAfterSpaces(s)
    requires next == s[k + 1..][RunLength(s[k + 1..], IsWhitespace)..]
    requires CharsFrom(rest, next) && NoSpaceNextToComma(rest)
    requires rest != [] && IsWhitespace(rest[0]) ==> next != [] && IsWhitespace(next[0])
    ensures CharsFrom([','] + rest, s)
    ensures NoSpaceNextToComma([','] + rest)
  {
    var m := RunLength(s[k + 1..], IsWhitespace);
    assert next == s[k + 1 + m..];
    ConsNoSpaceNextToComma(',', rest);
    CommaHeadChars(s, k, k + 1 + m, rest);
  }

  /** A comma found in `s` followed by characters of a suffix of `s` are all characters of `s`. */
  lemma CommaHeadChars(s: string, k: nat, j: nat, rest: string)
    requires k < |s| && s[k] == ',' && j <= |s| && CharsFrom(rest, s[j..])
    ensures CharsFrom([','] + rest, s)
  {
    SuffixCharsFrom(rest, s, j);
    var t := [','] + rest;
    forall i | 0 <= i < |t| ensures t[i] in s {
      if i > 0 { assert t[i] == rest[i - 1]; }
    }
  }

  lemma PlainStep(s: string, rest: string)
    requires s != [] && !CommaAfterSpaces(s)
    requires CharsFrom(rest, s[1..]) && NoSpaceNextToComma(rest)
    requires rest != [] && rest[0] == ',' ==> CommaAfterSpaces(s[1..])
    ensures CharsFrom([s[0]] + rest, s)
    ensures NoSpaceNextToComma([s[0]] + rest)
    ensures s[0] != ','
  {
    SuffixCharsFrom(rest, s, 1);
    var t := [s[0]] + rest;
    forall i | 0 <= i < |t| ensures t[i] in s {
      if i > 0 { assert t[i] == rest[i - 1]; }
    }
    ConsNoSpaceNextToComma(s[0], rest);
  }

  lemma SliceKeepsCleanShape(s: string, i: int, j: int)
    requires 0 <= i <= j <= |s|
    requires AllRouteChars(s) && NoSpaceNextToComma(s)
    ensures AllRouteChars(s[i..j]) && NoSpaceNextToComma(s[i..j])
  {
    var t := s[i..j];
    forall k | 0 <= k < |t| - 1
      ensures !(IsWhitespace(t[k]) && t[k + 1] == ',') && !(t[k] == ',' && IsWhitespace(t[k + 1]))
    {
      assert t[k] == s[i + k] && t[k + 1] == s[i + k + 1];
    }
  }

  /**
   * clean_route_ser (problem2.py, problem3.py): the cleaned text holds only
   * `[A-Z0-9, ]`, never starts or ends with a comma and has no whitespace
   * beside a comma.
   */
  function CleanRouteSer(s: string): (r: string)
    ensures AllRouteChars(r)
    ensures r == [] || (r[0] != ',' && r[|r| - 1] != ',')
    ensures NoSpaceNextToComma(r)
  {
    var normal := NormaliseCommas(ReplaceCityLinkWords(KeepRouteChars(Upper(s))));
    CleanedShape(KeepRouteChars(Upper(s)));
    StripCommasShape(normal);
    TrimRight(TrimLeft(normal, IsComma), IsComma)
  }

  lemma CharsFromKeepsRouteChars(r: string, s: string)
    requires CharsFrom(r, s) && AllRouteChars(s)
    ensures AllRouteChars(r)
  {
    forall i | 0 <= i < |r| ensures IsRouteChar(r[i]) {
      var k :| 0 <= k < |s| && s[k] == r[i];
    }
  }

  lemma CleanedShape(kept: string)
    requires AllRouteChars(kept)
    ensures AllRouteChars(NormaliseCommas(ReplaceCityLinkWords(kept)))
    ensures NoSpaceNextToComma(NormaliseCommas(ReplaceCityLinkWords(kept)))
  {
    var replaced := ReplaceCityLinkWords(kept);
    ReplaceCityLinkWordsChars(kept);
    CharsFromKeepsRouteChars(replaced, kept);
    NormaliseCommasShape(replaced);
    CharsFromKeepsRouteChars(NormaliseCommas(replaced), replaced);
  }

  lemma StripCommasShape(normal: string)
    requires AllRouteChars(normal) && NoSpaceNextToComma(normal)
    ensures var r := TrimRight(TrimLeft(normal, IsComma), IsComma);
      AllRouteChars(r) && NoSpaceNextToComma(r) && (r == [] || (r[0] != ',' && r[|r| - 1] != ','))
  {
    var left := TrimLeft(normal, IsComma);
    SliceKeepsCleanShape(normal, |normal| - |left|, |normal|);
    var r := TrimRight(left, IsComma);
    SliceKeepsCleanShape(left, 0, |r|);
    assert r != [] ==> r[0] == left[0];
  }

  // ---------------------------------------------------------------------------
  // Route numbers: .astype(str).str.strip().str.upper()
  //                .str.replace(r'CITYLINK[\s\-]*', '', regex=True).str.strip()

  function RemoveCityLinkPrefixes(s: string): (r: string)
    ensures |r| <= |s|
    decreases |s|
  {
    if s == [] then []
    else if |s| >= 8 && s[..8] == CityLink then RemoveCityLinkPrefixes(TrimLeft(s[8..], IsPrefixFiller))
    else [s[0]] + RemoveCityLinkPrefixes(s[1..])
  }

  lemma {:induction false} RemoveCityLinkPrefixesChars(s: string)
    ensures CharsFrom(RemoveCityLinkPrefixes(s), s)
    decreases |s|
  {
    if s == [] {
    } else if |s| >= 8 && s[..8] == CityLink {
      var next := TrimLeft(s[8..], IsPrefixFiller);
      RemoveCityLinkPrefixesChars(next);
      SuffixCharsFrom(RemoveCityLinkPrefixes(next), s, |s| - |next|);
    } else {
      var rest := RemoveCityLinkPrefixes(s[1..]);
      RemoveCityLinkPrefixesChars(s[1..]);
      SuffixCharsFrom(rest, s, 1);
      ConsCharsFrom(s, rest);
    }
  }

  lemma ConsCharsFrom(s: string, rest: string)
    requires s != [] && CharsFrom(rest, s)
    ensures CharsFrom([s[0]] + rest, s)
  {
    var t := [s[0]] + rest;
    forall i | 0 <= i < |t| ensures t[i] in s {
      if i > 0 { assert t[i] == rest[i - 1]; }
    }
  }

  lemma WordStep(s: string, k: nat, w: nat, rest: string)
    requires k + w <= |s| && CharsFrom(rest, s[k + w..])
    ensures CharsFrom(s[k..k + w] + rest, s)
  {
    SuffixCharsFrom(rest, s, k + w);
    var t := s[k..k + w] + rest;
    forall i | 0 <= i < |t| ensures t[i] in s {
      if i < w { assert t[i] == s[k + i]; } else { assert t[i] == rest[i - w]; }
    }
  }

  lemma CharsFromKeepsNoLower(r: string, s: string)
    requires CharsFrom(r, s) && NoLowerAscii(s)
    ensures NoLowerAscii(r)
  {
    forall i | 0 <= i < |r| ensures !IsLowerAscii(r[i]) {
      var k :| 0 <= k < |s| && s[k] == r[i];
    }
  }

  lemma StripCharsFrom(s: string)
    ensures CharsFrom(Strip(s), s)
  {
    var left := TrimLeft(s, IsWhitespace);
    var r := Strip(s);
    PrefixCharsFrom(r, left);
    SuffixCharsFrom(r, s, |s| - |left|);
  }

  /** A prefix of `s` draws its characters from `s`. */
  lemma PrefixCharsFrom(r: string, s: string)
    requires |r| <= |s| && r == s[..|r|]
    ensures CharsFrom(r, s)
  {
    forall i | 0 <= i < |r| ensures r[i] in s {
      assert r[i] == s[i];
    }
  }

  lemma NumberHasNoLower(raw: string)
    ensures NoLowerAscii(Strip(RemoveCityLinkPrefixes(Upper(Strip(raw)))))
  {
    var up := Upper(Strip(raw));
    assert NoLowerAscii(up);
    var removed := RemoveCityLinkPrefixes(up);
    RemoveCityLinkPrefixesChars(up);
    CharsFromKeepsNoLower(removed, up);
    StripCharsFrom(removed);
    CharsFromKeepsNoLower(Strip(removed), removed);
  }

  /**
   * The normalised route number has no leading or trailing whitespace and no
   * lower-case ASCII letter.
   */
  function NormaliseRouteNumber(raw: string): (r: string)
    ensures NoOuterWhitespace(r)
    ensures NoLowerAscii(r)
  {
    NumberHasNoLower(raw);
    Strip(RemoveCityLinkPrefixes(Upper(Strip(raw))))
  }

  /** Stripping a normalised route number again (problem2.py:79) changes nothing. */
  lemma StripNormalisedIsIdentity(raw: string)
    ensures Strip(NormaliseRouteNumber(raw)) == NormaliseRouteNumber(raw)
  {
    var r := NormaliseRouteNumber(raw);
    assert TrimLeft(r, IsWhitespace) == r;
    assert TrimRight(r, IsWhitespace) == r;
  }

  // ---------------------------------------------------------------------------
  // Worked examples

  /**
   * Text with no whitespace from its ninth character on holds no match of
   * `CITYLINK\s+\w+`, so the CityLink rewrite leaves it alone.
   */
  lemma {:induction false} NoLateWhitespaceKeeps(s: string)
    requires forall i :: 8 <= i < |s| ==> !IsWhitespace(s[i])
    ensures ReplaceCityLinkWords(s) == s
    decreases |s|
  {
    if s != [] {
      if |s| > 8 {
        assert s[8..][0] == s[8];
      }
      assert !CityLinkWordAt(s);
      var t := s[1..];
      forall i | 8 <= i < |t| ensures !IsWhitespace(t[i]) {
        assert t[i] == s[i + 1];
      }
      NoLateWhitespaceKeeps(t);
      assert s == [s[0]] + t;
    }
  }

  /**
   * `CITYLINK`, a run of whitespace and a whole word become the word: the
   * greedy `\s+` takes the whole run, since a word character is no whitespace.
   */
  lemma CityLinkWordStep(ws: string, w: string, rest: string)
    requires ws != [] && forall i :: 0 <= i < |ws| ==> IsWhitespace(ws[i])
    requires w != [] && forall i :: 0 <= i < |w| ==> IsWordChar(w[i])
    requires rest == [] || !IsWordChar(rest[0])
    ensures ReplaceCityLinkWords(CityLink + ws + w + rest) == w + ReplaceCityLinkWords(rest)
  {
    var s := CityLink + ws + w + rest;
    var k := 8 + |ws|;
    CityLinkWordRuns(ws, w, rest);
    assert s[k..k + |w|] == w && s[k + |w|..] == rest;
  }

  /** In `CITYLINK`, a whitespace run and a whole word, the match spans both runs. */
  lemma CityLinkWordRuns(ws: string, w: string, rest: string)
    requires ws != [] && forall i :: 0 <= i < |ws| ==> IsWhitespace(ws[i])
    requires w != [] && forall i :: 0 <= i < |w| ==> IsWordChar(w[i])
    requires rest == [] || !IsWordChar(rest[0])
    ensures var s := CityLink + ws + w + rest;
      CityLinkWordAt(s) && RunLength(s[8..], IsWhitespace) == |ws|
      && RunLength(s[8 + |ws|..], IsWordChar) == |w|
  {
    var s := CityLink + ws + w + rest;
    var tail := w + rest;
    var run := ws + tail;
    Regroup(CityLink, ws, w, rest);
    assert RunLength(run, IsWhitespace) == |ws| by {
      assert forall i :: 0 <= i < |ws| ==> run[i] == ws[i];
      assert run[|ws|] == w[0];
      RunLengthExact(run, IsWhitespace, |ws|);
    }
    assert RunLength(tail, IsWordChar) == |w| by {
      assert forall i :: 0 <= i < |w| ==> tail[i] == w[i];
      assert |w| < |tail| ==> tail[|w|] == rest[0];
      RunLengthExact(tail, IsWordChar, |w|);
    }
  }

  /** The slices of `p + q + w + rest` at the ends of `p` and of `q`. */
  lemma Regroup(p: string, q: string, w: string, rest: string)
    ensures var s := p + q + w + rest;
      s[..|p|] == p && s[|p|..] == q + (w + rest) && s[|p| + |q|..] == w + rest
  {
  }

  /** The run of leading characters satisfying `p` ends exactly where `p` first fails. */
  lemma {:induction false} RunLengthExact(s: string, p: char -> bool, n: nat)
    requires n <= |s| && (forall i :: 0 <= i < n ==> p(s[i])) && (n < |s| ==> !p(s[n]))
    ensures RunLength(s, p) == n
    decreases n
  {
    if n > 0 {
      var t := s[1..];
      forall i | 0 <= i < n - 1 ensures p(t[i]) {
        assert t[i] == s[i + 1];
      }
      assert n - 1 < |t| ==> t[n - 1] == s[n];
      RunLengthExact(t, p, n - 1);
    }
  }

  /** A character that is neither whitespace nor a comma is copied through. */
  lemma NormaliseCommasCopies(c: char, s: string)
    requires !IsWhitespace(c) && c != ','
    ensures NormaliseCommas([c] + s) == [c] + NormaliseCommas(s)
  {
    var t := [c] + s;
    assert RunLength(t, IsWhitespace) == 0;
    assert !CommaAfterSpaces(t);
    assert t[1..] == s;
  }

  /** Text with no whitespace and no comma passes through the comma rewrite unchanged. */
  lemma {:induction false} NormaliseCommasWord(w: string, s: string)
    requires forall i :: 0 <= i < |w| ==> !IsWhitespace(w[i]) && w[i] != ','
    ensures NormaliseCommas(w + s) == w + NormaliseCommas(s)
    decreases |w|
  {
    if w == [] {
      assert w + s == s;
    } else {
      var tail := w[1..] + s;
      assert w + s == [w[0]] + tail;
      NormaliseCommasCopies(w[0], tail);
      NormaliseCommasWord(w[1..], s);
      assert [w[0]] + (w[1..] + NormaliseCommas(s)) == w + NormaliseCommas(s);
    }
  }

  /**
   * A comma followed by one whitespace character between two words loses
   * the whitespace, as in "BLUE, 22" becoming "BLUE,22".
   */
  lemma NormaliseCommasBetweenWords(w: string, sp: char, t: string)
    requires forall i :: 0 <= i < |w| ==> !IsWhitespace(w[i]) && w[i] != ','
    requires IsWhitespace(sp)
    requires forall i :: 0 <= i < |t| ==> !IsWhitespace(t[i]) && t[i] != ','
    ensures NormaliseCommas(w + [',', sp] + t) == w + [','] + t
  {
    var rest := [',', sp] + t;
    assert w + [',', sp] + t == w + rest;
    assert w + [','] + t == w + ([','] + t);
    CommaSpaceBeforeWord(sp, t);
    NormaliseCommasWord(w, rest);
  }

  /** A comma and one whitespace character before a word become the comma alone. */
  lemma CommaSpaceBeforeWord(sp: char, t: string)
    requires IsWhitespace(sp)
    requires forall i :: 0 <= i < |t| ==> !IsWhitespace(t[i]) && t[i] != ','
    ensures NormaliseCommas([',', sp] + t) == [','] + t
  {
    var rest := [',', sp] + t;
    assert rest[2..] == t;
    CommaSpaceStep(rest, t);
    NormaliseCommasWord(t, []);
    assert t + [] == t;
  }

  /** A comma and one whitespace character in front of text that does not start with whitespace become the comma alone. */
  lemma CommaSpaceStep(s: string, t: string)
    requires |s| >= 2 && s[0] == ',' && IsWhitespace(s[1]) && s[2..] == t
    requires t != [] ==> !IsWhitespace(t[0])
    ensures NormaliseCommas(s) == [','] + NormaliseCommas(t)
  {
    assert RunLength(s, IsWhitespace) == 0;
    var after := s[1..];
    assert after[1..] == t;
    assert RunLength(t, IsWhitespace) == 0;
    assert RunLength(after, IsWhitespace) == 1;
  }
}
