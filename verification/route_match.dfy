/**
 * The stop and route tables after cleaning, and the matcher that decides
 * which stops a route serves.
 *
 * The scripts build, for every route number `r`, the case-insensitive pattern
 * `(?:^|,)\s*<r escaped>\s*(?:,|$)` and keep the stops whose cleaned route
 * list contains a match.  `ServesRoute` states that pattern literally; the
 * comma-field reading (`HasField`, over an explicit `Split`) is its partner,
 * and `ServesRouteIffField` shows that the two agree for every route number
 * without a comma and without outer whitespace, which is what the route-number
 * normalisation produces.
 */
module RouteMatch {
  import opened RouteText
  import Graph

  /** One row of the stop table: id, planar position and the route list. */
  datatype Stop = Stop(id: Graph.NodeId, x: int, y: int, routes: string)

  /** One row of the route table: route number and route type. */
  datatype RouteRow = RouteRow(number: string, routeType: string)

  /** `stops['Routes_Ser'].apply(clean_route_ser)`: only the route column changes. */
  function CleanStops(stops: seq<Stop>): (r: seq<Stop>)
    ensures |r| == |stops|
    ensures forall k :: 0 <= k < |r| ==>
      r[k].id == stops[k].id && r[k].x == stops[k].x && r[k].y == stops[k].y
      && r[k].routes == CleanRouteSer(stops[k].routes)
  {
    seq(|stops|, k requires 0 <= k < |stops| =>
      stops[k].(routes := CleanRouteSer(stops[k].routes)))
  }

  /** The `Route_Numb` normalisation chain, applied to every row of the route table. */
  function NormaliseRoutes(routes: seq<RouteRow>): (r: seq<RouteRow>)
    ensures |r| == |routes|
    ensures forall k :: 0 <= k < |r| ==>
      r[k].routeType == routes[k].routeType && r[k].number == NormaliseRouteNumber(routes[k].number)
      && NoOuterWhitespace(r[k].number) && NoLowerAscii(r[k].number)
  {
    seq(|routes|, k requires 0 <= k < |routes| =>
      routes[k].(number := NormaliseRouteNumber(routes[k].number)))
  }

  // ---------------------------------------------------------------------------
  // The pattern, literally

  /** `re.IGNORECASE` on ASCII letters. */
  function LowerChar(c: char): char {
    if 'A' <= c <= 'Z' then (c as int + 32) as char else c
  }

  predicate SameIgnoringCase(a: string, b: string) {
    |a| == |b| && forall i :: 0 <= i < |a| ==> LowerChar(a[i]) == LowerChar(b[i])
  }

  predicate AllWhitespace(s: string) {
    forall i :: 0 <= i < |s| ==> IsWhitespace(s[i])
  }

  /** `\s*<r>\s*` matches the whole of `seg`. */
  predicate PaddedMatch(seg: string, r: string) {
    exists a :: 0 <= a <= |seg| - |r| && AllWhitespace(seg[..a])
      && SameIgnoringCase(seg[a..a + |r|], r) && AllWhitespace(seg[a + |r|..])
  }

  /** `(?:^|,)` can end at position `i`. */
  predicate FieldStart(s: string, i: int) {
    i == 0 || (0 < i <= |s| && s[i - 1] == ',')
  }

  /**
   * `(?:,|$)` can start at position `j`.  Python's `$` also matches just before
   * a final newline; that changes nothing here, because a newline is whitespace
   * and the `\s*` before `$` consumes it.
   */
  predicate FieldEnd(s: string, j: int) {
    j == |s| || (0 <= j < |s| && s[j] == ',')
  }

  /** `re.search` of the route pattern in the stop's route list succeeds. */
  predicate ServesRoute(s: string, r: string) {
    exists i, j :: 0 <= i <= j <= |s| && FieldStart(s, i) && FieldEnd(s, j) && PaddedMatch(s[i..j], r)
  }

  // ---------------------------------------------------------------------------
  // The comma-field reading: str.split(',')

  /** Position of the first comma at or after `i`, or `|s|`. */
  function NextComma(s: string, i: nat): (j: nat)
    requires i <= |s|
    ensures i <= j <= |s| && FieldEnd(s, j)
    ensures forall k :: i <= k < j ==> s[k] != ','
    decreases |s| - i
  {
    if i == |s| || s[i] == ',' then i else NextComma(s, i + 1)
  }

  /** `s.split(',')`. */
  function Split(s: string): (fields: seq<string>)
    ensures |fields| >= 1
    decreases |s|
  {
    var j := NextComma(s, 0);
    if j == |s| then [s] else [s[..j]] + Split(s[j + 1..])
  }

  /** `','.join(fields)`. */
  function Join(fields: seq<string>): string
    requires |fields| >= 1
  {
    if |fields| == 1 then fields[0] else fields[0] + "," + Join(fields[1..])
  }

  /** Some field of the route list, stripped, equals `r` ignoring case. */
  predicate HasField(s: string, r: string) {
    exists f :: f in Split(s) && SameIgnoringCase(Strip(f), r)
  }

  /** Splitting then joining gives the text back, and no field holds a comma. */
  lemma {:induction false} SplitJoin(s: string)
    ensures Join(Split(s)) == s
    ensures forall f :: f in Split(s) ==> ',' !in f
    decreases |s|
  {
    var j := NextComma(s, 0);
    if j < |s| {
      var t := s[j + 1..];
      SplitJoin(t);
      assert s == s[..j] + "," + t;
      forall f | f in Split(s) ensures ',' !in f {
        if f != s[..j] {
          assert f in Split(t);
        }
      }
    }
  }

  /** `NextComma` is the only end position with no comma before it. */
  lemma NextCommaUnique(s: string, i: nat, j: nat)
    requires i <= j <= |s| && FieldEnd(s, j)
    requires forall k :: i <= k < j ==> s[k] != ','
    ensures j == NextComma(s, i)
  {
  }

  lemma NextCommaShift(s: string, m: nat, i: nat)
    requires m + i <= |s|
    ensures NextComma(s[m..], i) + m == NextComma(s, m + i)
  {
    var t := s[m..];
    var j := NextComma(t, i);
    assert FieldEnd(s, j + m) by {
      if j < |t| { assert t[j] == s[j + m]; }
    }
    forall k | m + i <= k < j + m ensures s[k] != ',' {
      assert s[k] == t[k - m];
    }
    NextCommaUnique(s, m + i, j + m);
  }

  /** `f` runs from a field start of `s` to the next comma. */
  predicate IsFieldOf(s: string, f: string) {
    exists i :: 0 <= i <= |s| && FieldStart(s, i) && f == s[i..NextComma(s, i)]
  }

  /** A field of the text after the first comma is a field of the whole text. */
  lemma FieldShiftUp(s: string, j: nat, i': nat)
    requires j == NextComma(s, 0) && j < |s|
    requires i' <= |s[j + 1..]| && FieldStart(s[j + 1..], i')
    ensures FieldStart(s, j + 1 + i')
    ensures s[j + 1 + i'..NextComma(s, j + 1 + i')] == s[j + 1..][i'..NextComma(s[j + 1..], i')]
  {
    var t := s[j + 1..];
    NextCommaShift(s, j + 1, i');
    SliceOfSuffix(s, j + 1, i', NextComma(t, i'));
    if i' > 0 { assert s[j + i'] == t[i' - 1]; }
  }

  /** A slice of a suffix is a slice of the whole text, shifted. */
  lemma SliceOfSuffix(s: string, a: nat, lo: nat, hi: nat)
    requires a + hi <= |s| && lo <= hi
    ensures s[a..][lo..hi] == s[a + lo..a + hi]
  {
  }

  /** A field of the whole text that does not start at 0 is a field of the text after the first comma. */
  lemma FieldShiftDown(s: string, j: nat, i: nat)
    requires j == NextComma(s, 0) && i <= |s| && FieldStart(s, i) && i > 0
    ensures j < |s| && j + 1 <= i
    ensures FieldStart(s[j + 1..], i - (j + 1))
    ensures s[i..NextComma(s, i)] == s[j + 1..][i - (j + 1)..NextComma(s[j + 1..], i - (j + 1))]
  {
    assert s[i - 1] == ',';
    assert j <= i - 1;
    var t := s[j + 1..];
    var i' := i - (j + 1);
    NextCommaShift(s, j + 1, i');
    assert FieldStart(t, i') by {
      if i' > 0 { assert t[i' - 1] == s[i - 1]; }
    }
    var e := NextComma(s, i);
    assert t[i'..e - (j + 1)] == s[i..e];
  }

  /** The fields `Split` returns are exactly the slices from a field start to the next comma. */
  lemma {:induction false} SplitFields(s: string, f: string)
    ensures f in Split(s) <==> IsFieldOf(s, f)
    decreases |s|
  {
    var j := NextComma(s, 0);
    assert s[0..j] == s[..j];
    if j == |s| {
      if IsFieldOf(s, f) {
        var i :| 0 <= i <= |s| && FieldStart(s, i) && f == s[i..NextComma(s, i)];
        if i > 0 {
          FieldShiftDown(s, j, i);
        }
      }
      assert s[..j] == s;
    } else {
      var t := s[j + 1..];
      SplitFields(t, f);
      assert Split(s) == [s[..j]] + Split(t);
      if f in Split(t) {
        var i' :| 0 <= i' <= |t| && FieldStart(t, i') && f == t[i'..NextComma(t, i')];
        FieldShiftUp(s, j, i');
      }
      if IsFieldOf(s, f) {
        var i :| 0 <= i <= |s| && FieldStart(s, i) && f == s[i..NextComma(s, i)];
        if i > 0 {
          FieldShiftDown(s, j, i);
        }
      }
    }
  }

  // ---------------------------------------------------------------------------
  // The pattern and the fields agree

  lemma LowerCharKeepsClass(c: char, d: char)
    requires LowerChar(c) == LowerChar(d)
    ensures IsWhitespace(c) <==> IsWhitespace(d)
    ensures c == ',' <==> d == ','
  {
  }

  /** A stretch that the pattern's middle part matches holds no comma when `r` holds none. */
  lemma PaddedHasNoComma(seg: string, r: string)
    requires ',' !in r && PaddedMatch(seg, r)
    ensures ',' !in seg
  {
    var a :| 0 <= a <= |seg| - |r| && AllWhitespace(seg[..a])
      && SameIgnoringCase(seg[a..a + |r|], r) && AllWhitespace(seg[a + |r|..]);
    forall k | 0 <= k < |seg| ensures seg[k] != ',' {
      if k < a {
        assert seg[..a][k] == seg[k];
      } else if k < a + |r| {
        assert seg[a..a + |r|][k - a] == seg[k];
        LowerCharKeepsClass(seg[k], r[k - a]);
      } else {
        assert seg[a + |r|..][k - a - |r|] == seg[k];
      }
    }
  }

  lemma {:induction false} TrimLeftExact(s: string, a: nat, drop: char -> bool)
    requires a <= |s| && (forall i :: 0 <= i < a ==> drop(s[i])) && (a < |s| ==> !drop(s[a]))
    ensures TrimLeft(s, drop) == s[a..]
    decreases a
  {
    if a > 0 {
      assert drop(s[0]);
      var t := s[1..];
      forall i | 0 <= i < a - 1 ensures drop(t[i]) {
        assert t[i] == s[i + 1];
      }
      assert a - 1 < |t| ==> t[a - 1] == s[a];
      TrimLeftExact(t, a - 1, drop);
      assert t[a - 1..] == s[a..];
    }
  }

  lemma {:induction false} TrimRightExact(s: string, b: nat, drop: char -> bool)
    requires b <= |s| && (forall i :: b <= i < |s| ==> drop(s[i])) && (b > 0 ==> !drop(s[b - 1]))
    ensures TrimRight(s, drop) == s[..b]
    decreases |s| - b
  {
    if b < |s| {
      assert drop(s[|s| - 1]);
      var t := s[..|s| - 1];
      forall i | b <= i < |t| ensures drop(t[i]) {
        assert t[i] == s[i];
      }
      assert b > 0 ==> t[b - 1] == s[b - 1];
      TrimRightExact(t, b, drop);
      assert t[..b] == s[..b];
    }
  }

  /** `\s*<r>\s*` matches a stretch exactly when the stretch, stripped, equals `r` ignoring case. */
  lemma PaddedIffStrip(seg: string, r: string)
    requires NoOuterWhitespace(r)
    ensures PaddedMatch(seg, r) <==> SameIgnoringCase(Strip(seg), r)
  {
    if SameIgnoringCase(Strip(seg), r) {
      StripIsPadded(seg, r);
    }
    if PaddedMatch(seg, r) {
      PaddedIsStrip(seg, r);
    }
  }

  lemma StripIsPadded(seg: string, r: string)
    requires SameIgnoringCase(Strip(seg), r)
    ensures PaddedMatch(seg, r)
  {
    var a0 := StripSlices(seg);
    PaddedAt(seg, Strip(seg), r, a0);
  }

  /** A slice `mid` of `seg` with whitespace around it, matching `r`, is a padded match. */
  lemma PaddedAt(seg: string, mid: string, r: string, a: nat)
    requires a + |mid| <= |seg| && seg[a..a + |mid|] == mid && SameIgnoringCase(mid, r)
    requires AllWhitespace(seg[..a]) && AllWhitespace(seg[a + |mid|..])
    ensures PaddedMatch(seg, r)
  {
    assert |mid| == |r|;
  }

  /** `Strip(seg)` sits in `seg` after `a0` whitespace characters and before whitespace only. */
  lemma StripSlices(seg: string) returns (a0: nat)
    ensures a0 + |Strip(seg)| <= |seg| && seg[a0..a0 + |Strip(seg)|] == Strip(seg)
    ensures AllWhitespace(seg[..a0]) && AllWhitespace(seg[a0 + |Strip(seg)|..])
  {
    a0 := |seg| - |TrimLeft(seg, IsWhitespace)|;
    StripSlice(seg, a0);
    StripPads(seg, a0);
  }

  /** The stripped text is the slice of `seg` after its leading whitespace. */
  lemma StripSlice(seg: string, a0: nat)
    requires a0 == |seg| - |TrimLeft(seg, IsWhitespace)|
    ensures a0 + |Strip(seg)| <= |seg| && seg[a0..a0 + |Strip(seg)|] == Strip(seg)
  {
    PrefixOfSuffix(seg, TrimLeft(seg, IsWhitespace), Strip(seg), a0);
  }

  /** A prefix of the suffix of `s` from `a` is the slice of `s` from `a`. */
  lemma PrefixOfSuffix(s: string, left: string, mid: string, a: nat)
    requires a <= |s| && left == s[a..] && |mid| <= |left| && mid == left[..|mid|]
    ensures a + |mid| <= |s| && s[a..a + |mid|] == mid
  {
    SplitSuffix(s, a, |mid|);
  }

  /** What precedes and what follows the stripped text is whitespace. */
  lemma StripPads(seg: string, a0: nat)
    requires a0 == |seg| - |TrimLeft(seg, IsWhitespace)|
    ensures a0 + |Strip(seg)| <= |seg|
    ensures AllWhitespace(seg[..a0]) && AllWhitespace(seg[a0 + |Strip(seg)|..])
  {
    WhitespaceHead(seg, a0);
    WhitespaceAfter(seg, TrimLeft(seg, IsWhitespace), Strip(seg), a0);
  }

  /** Whitespace after a prefix of the suffix of `s` from `a` is whitespace at the end of `s`. */
  lemma WhitespaceAfter(s: string, left: string, mid: string, a: nat)
    requires a <= |s| && left == s[a..] && |mid| <= |left|
    requires forall i :: |mid| <= i < |left| ==> IsWhitespace(left[i])
    ensures a + |mid| <= |s| && AllWhitespace(s[a + |mid|..])
  {
    WhitespaceTail(left, |mid|);
    SplitSuffix(s, a, |mid|);
  }

  /** Leading whitespace characters form an all-whitespace prefix. */
  lemma WhitespaceHead(s: string, n: nat)
    requires n <= |s| && forall i :: 0 <= i < n ==> IsWhitespace(s[i])
    ensures AllWhitespace(s[..n])
  {
    forall i | 0 <= i < n ensures IsWhitespace(s[..n][i]) {
      assert s[..n][i] == s[i];
    }
  }

  /** Trailing whitespace characters form an all-whitespace suffix. */
  lemma WhitespaceTail(s: string, n: nat)
    requires n <= |s| && forall i :: n <= i < |s| ==> IsWhitespace(s[i])
    ensures AllWhitespace(s[n..])
  {
    forall i | 0 <= i < |s| - n ensures IsWhitespace(s[n..][i]) {
      assert s[n..][i] == s[n + i];
    }
  }

  /** Cutting a suffix of `s` again is cutting `s`. */
  lemma SplitSuffix(s: string, a: nat, n: nat)
    requires a + n <= |s|
    ensures s[a..][..n] == s[a..a + n] && s[a..][n..] == s[a + n..]
  {
  }

  lemma PaddedIsStrip(seg: string, r: string)
    requires NoOuterWhitespace(r) && PaddedMatch(seg, r)
    ensures SameIgnoringCase(Strip(seg), r)
  {
    var a :| 0 <= a <= |seg| - |r| && AllWhitespace(seg[..a])
      && SameIgnoringCase(seg[a..a + |r|], r) && AllWhitespace(seg[a + |r|..]);
    if r == [] {
      BlankStripsToEmpty(seg, a);
    } else {
      PaddedWordStrips(seg, r, a);
    }
  }

  lemma BlankStripsToEmpty(seg: string, a: nat)
    requires a <= |seg| && AllWhitespace(seg[..a]) && AllWhitespace(seg[a..])
    ensures Strip(seg) == []
  {
    forall i | 0 <= i < |seg| ensures IsWhitespace(seg[i]) {
      if i < a { assert seg[..a][i] == seg[i]; } else { assert seg[a..][i - a] == seg[i]; }
    }
    TrimLeftExact(seg, |seg|, IsWhitespace);
  }

  lemma PaddedWordStrips(seg: string, r: string, a: nat)
    requires r != [] && NoOuterWhitespace(r) && a + |r| <= |seg|
    requires AllWhitespace(seg[..a]) && SameIgnoringCase(seg[a..a + |r|], r) && AllWhitespace(seg[a + |r|..])
    ensures Strip(seg) == seg[a..a + |r|]
  {
    var x := seg[a..a + |r|];
    LowerCharKeepsClass(x[0], r[0]);
    LowerCharKeepsClass(x[|r| - 1], r[|r| - 1]);
    assert seg == seg[..a] + x + seg[a + |r|..];
    StripPadding(seg, seg[..a], x, seg[a + |r|..]);
  }

  /** For a route number without a comma, the pattern can only match a whole field. */
  lemma ServesRouteAtFields(s: string, r: string)
    requires ',' !in r
    ensures ServesRoute(s, r) <==>
      exists i :: 0 <= i <= |s| && FieldStart(s, i) && PaddedMatch(s[i..NextComma(s, i)], r)
  {
    if ServesRoute(s, r) {
      var i, j :| 0 <= i <= j <= |s| && FieldStart(s, i) && FieldEnd(s, j) && PaddedMatch(s[i..j], r);
      PaddedHasNoComma(s[i..j], r);
      forall k | i <= k < j ensures s[k] != ',' {
        assert s[i..j][k - i] == s[k];
      }
      NextCommaUnique(s, i, j);
    }
  }

  /**
   * The stop serves the route exactly when one comma-separated field of its
   * route list, stripped of whitespace, equals the route number ignoring case.
   */
  lemma ServesRouteIffField(s: string, r: string)
    requires ',' !in r && NoOuterWhitespace(r)
    ensures ServesRoute(s, r) <==> HasField(s, r)
  {
    ServesRouteAtFields(s, r);
    if ServesRoute(s, r) {
      MatchGivesField(s, r);
    }
    if HasField(s, r) {
      FieldGivesMatch(s, r);
    }
  }

  lemma MatchGivesField(s: string, r: string)
    requires NoOuterWhitespace(r)
    requires exists i :: 0 <= i <= |s| && FieldStart(s, i) && PaddedMatch(s[i..NextComma(s, i)], r)
    ensures HasField(s, r)
  {
    var i :| 0 <= i <= |s| && FieldStart(s, i) && PaddedMatch(s[i..NextComma(s, i)], r);
    MatchAtGivesField(s, r, i);
  }

  /** A padded match in the field starting at `i` is a field of the split. */
  lemma MatchAtGivesField(s: string, r: string, i: nat)
    requires NoOuterWhitespace(r)
    requires i <= |s| && FieldStart(s, i) && PaddedMatch(s[i..NextComma(s, i)], r)
    ensures HasField(s, r)
  {
    var f := s[i..NextComma(s, i)];
    assert IsFieldOf(s, f);
    SplitFields(s, f);
    PaddedIsStrip(f, r);
  }

  lemma FieldGivesMatch(s: string, r: string)
    requires NoOuterWhitespace(r) && HasField(s, r)
    ensures exists i :: 0 <= i <= |s| && FieldStart(s, i) && PaddedMatch(s[i..NextComma(s, i)], r)
  {
    var f :| f in Split(s) && SameIgnoringCase(Strip(f), r);
    var i := FieldIndex(s, f);
    StripIsPadded(f, r);
  }

  /** Where a field of `Split(s)` starts. */
  lemma FieldIndex(s: string, f: string) returns (i: nat)
    requires f in Split(s)
    ensures i <= |s| && FieldStart(s, i) && f == s[i..NextComma(s, i)]
  {
    SplitFields(s, f);
    i :| 0 <= i <= |s| && FieldStart(s, i) && f == s[i..NextComma(s, i)];
  }

  lemma TenMatches()
    ensures ServesRoute("10,12", "10")
  {
    var s := "10,12";
    assert s[0..2] == "10";
    assert PaddedMatch(s[0..2], "10") by {
      assert s[0..2][..0] == [] && s[0..2][0..2] == "10" && s[0..2][2..] == [];
    }
    assert FieldEnd(s, 2);
  }

  lemma SplitTenTwelve()
    ensures Split("10,12") == ["10", "12"]
  {
    var s := "10,12";
    assert NextComma(s, 0) == 2;
    assert s[..2] == "10" && s[3..] == "12";
    assert NextComma("12", 0) == 2;
  }

  /** Text with no whitespace at either end is left alone by `strip`. */
  lemma StripKeepsWord(s: string)
    requires s != [] && !IsWhitespace(s[0]) && !IsWhitespace(s[|s| - 1])
    ensures Strip(s) == s
  {
    TrimLeftExact(s, 0, IsWhitespace);
    TrimRightExact(s, |s|, IsWhitespace);
  }

  lemma NoFieldIsOne()
    ensures !HasField("10,12", "1")
  {
    SplitTenTwelve();
    NoFieldOfLength("10,12", "1", "10", "12");
  }

  /**
   * A text split into two fields, each a word of a length other than `|r|`
   * with no whitespace at its ends, has no field matching `r`.
   */
  lemma NoFieldOfLength(s: string, r: string, f1: string, f2: string)
    requires Split(s) == [f1, f2] && |f1| != |r| && |f2| != |r|
    requires f1 != [] && !IsWhitespace(f1[0]) && !IsWhitespace(f1[|f1| - 1])
    requires f2 != [] && !IsWhitespace(f2[0]) && !IsWhitespace(f2[|f2| - 1])
    ensures !HasField(s, r)
  {
    StripKeepsWord(f1);
    StripKeepsWord(f2);
  }

  /** "10,12" serves route 10 but not route 1: the match is by whole field. */
  lemma OneDoesNotMatch()
    ensures !ServesRoute("10,12", "1")
  {
    NoFieldIsOne();
    ServesRouteIffField("10,12", "1");
  }

  // ---------------------------------------------------------------------------
  // CityLink names in the two cleaning passes

  /** Upper-case letters and digits: the characters of a route name or number. */
  predicate IsNameText(w: string) {
    forall i :: 0 <= i < |w| ==> ('A' <= w[i] <= 'Z') || ('0' <= w[i] <= '9')
  }

  /**
   * clean_route_ser on `CityLink <w>, <t>`: the CityLink name loses its prefix
   * and the comma loses the space after it.
   */
  lemma CleanCityLinkList(raw: string, w: string, t: string)
    requires Upper(raw) == CityLink + [' '] + w + [',', ' '] + t
    requires w != [] && t != [] && IsNameText(w) && IsNameText(t)
    ensures CleanRouteSer(raw) == w + [','] + t
  {
    KeepsCityLinkList(w, t);
    ReplacesCityLinkList(w, t);
    NormaliseCommasBetweenWords(w, ' ', t);
    TrimsNoComma(w + [','] + t);
  }

  /** A CityLink list already holds only the characters the first pass keeps. */
  lemma KeepsCityLinkList(w: string, t: string)
    requires IsNameText(w) && IsNameText(t)
    ensures var up := CityLink + [' '] + w + [',', ' '] + t; KeepRouteChars(up) == up
  {
    var up := CityLink + [' '] + w + [',', ' '] + t;
    forall i | 0 <= i < |up| ensures IsRouteChar(up[i]) {
      if 9 <= i < 9 + |w| {
        assert up[i] == w[i - 9];
      } else if i >= 11 + |w| {
        assert up[i] == t[i - 11 - |w|];
      }
    }
  }

  /** The CityLink rewrite turns `CITYLINK <w>, <t>` into `<w>, <t>`. */
  lemma ReplacesCityLinkList(w: string, t: string)
    requires w != [] && IsNameText(w) && IsNameText(t)
    ensures ReplaceCityLinkWords(CityLink + [' '] + w + [',', ' '] + t) == w + [',', ' '] + t
  {
    var rest := [',', ' '] + t;
    ConcatAssoc(CityLink + [' '] + w, [',', ' '], t);
    CityLinkWordStep([' '], w, rest);
    forall i | 8 <= i < |rest| ensures !IsWhitespace(rest[i]) {
      assert rest[i] == t[i - 2];
    }
    NoLateWhitespaceKeeps(rest);
    ConcatAssoc(w, [',', ' '], t);
  }

  lemma ConcatAssoc(a: string, b: string, c: string)
    ensures a + b + c == a + (b + c)
  {
  }

  /** Stripping commas leaves text that neither starts nor ends with one. */
  lemma TrimsNoComma(s: string)
    requires s != [] && s[0] != ',' && s[|s| - 1] != ','
    ensures TrimRight(TrimLeft(s, IsComma), IsComma) == s
  {
    TrimLeftExact(s, 0, IsComma);
    TrimRightExact(s, |s|, IsComma);
  }

  /** `clean_route_ser("CityLink Blue, 22")` is `"BLUE,22"`. */
  lemma CleanRouteSerExample()
    ensures CleanRouteSer("CityLink Blue, 22") == "BLUE,22"
  {
    var raw, w, t := "CityLink Blue, 22", "BLUE", "22";
    assert w + [','] + t == "BLUE,22";
    assert Upper(raw) == CityLink + [' '] + w + [',', ' '] + t;
    CleanCityLinkList(raw, w, t);
  }

  /** `CITYLINK` starts at index `i` of `s`. */
  predicate CityLinkAt(s: string, i: nat) {
    i + 8 <= |s| && s[i..i + 8] == CityLink
  }

  /** Text that holds no `CITYLINK` is left alone by the prefix removal. */
  lemma {:induction false} NoCityLinkKeeps(s: string)
    requires forall i: nat :: !CityLinkAt(s, i)
    ensures RemoveCityLinkPrefixes(s) == s
    decreases |s|
  {
    if s != [] {
      assert !CityLinkAt(s, 0);
      assert |s| >= 8 ==> s[..8] == s[0..8];
      var t := s[1..];
      forall i: nat ensures !CityLinkAt(t, i) {
        assert !CityLinkAt(s, i + 1);
        assert i + 8 <= |t| ==> t[i..i + 8] == s[i + 1..i + 9];
      }
      NoCityLinkKeeps(t);
      assert s == [s[0]] + t;
    }
  }

  /** Whitespace around a word is what `strip` removes. */
  lemma StripPadding(raw: string, lead: string, body: string, trail: string)
    requires raw == lead + body + trail
    requires AllWhitespace(lead) && AllWhitespace(trail)
    requires body != [] && !IsWhitespace(body[0]) && !IsWhitespace(body[|body| - 1])
    ensures Strip(raw) == body
  {
    assert forall i :: 0 <= i < |lead| ==> raw[i] == lead[i];
    assert raw[|lead|] == body[0];
    TrimLeftExact(raw, |lead|, IsWhitespace);
    var bt := body + trail;
    assert raw[|lead|..] == bt;
    assert forall i :: |body| <= i < |bt| ==> bt[i] == trail[i - |body|];
    assert bt[|body| - 1] == body[|body| - 1];
    TrimRightExact(bt, |body|, IsWhitespace);
    assert bt[..|body|] == body;
  }

  /** `CITYLINK` and the separators after it go; the rest is kept when it holds no `CITYLINK`. */
  lemma RemovePrefixBeforeWord(fill: string, w: string)
    requires forall i :: 0 <= i < |fill| ==> IsPrefixFiller(fill[i])
    requires w != [] && !IsPrefixFiller(w[0]) && forall i: nat :: !CityLinkAt(w, i)
    ensures RemoveCityLinkPrefixes(CityLink + fill + w) == w
  {
    SplitPrefix(CityLink, fill, w);
    TrimFiller(fill, w);
    NoCityLinkKeeps(w);
  }

  /** Cutting `p + q + r` after `p` gives back `p` and `q + r`. */
  lemma SplitPrefix(p: string, q: string, r: string)
    ensures (p + q + r)[..|p|] == p && (p + q + r)[|p|..] == q + r
  {
  }

  /** Stripping the separators off `<fill><w>` leaves `w`. */
  lemma TrimFiller(fill: string, w: string)
    requires forall i :: 0 <= i < |fill| ==> IsPrefixFiller(fill[i])
    requires w != [] && !IsPrefixFiller(w[0])
    ensures TrimLeft(fill + w, IsPrefixFiller) == w
  {
    var fw := fill + w;
    assert forall i :: 0 <= i < |fill| ==> fw[i] == fill[i];
    assert fw[|fill|] == w[0];
    TrimLeftExact(fw, |fill|, IsPrefixFiller);
    assert fw[|fill|..] == w;
  }

  /**
   * The route-number chain on `<spaces>CityLink<separators><w><spaces>`, the
   * prefix in any letter case: only `w` remains.
   */
  lemma NormaliseCityLinkNumber(raw: string, lead: string, body: string, trail: string, fill: string, w: string)
    requires raw == lead + body + trail
    requires AllWhitespace(lead) && AllWhitespace(trail)
    requires body != [] && !IsWhitespace(body[0]) && !IsWhitespace(body[|body| - 1])
    requires Upper(body) == CityLink + fill + w
    requires forall i :: 0 <= i < |fill| ==> IsPrefixFiller(fill[i])
    requires w != [] && !IsPrefixFiller(w[0]) && !IsWhitespace(w[|w| - 1])
    requires forall i: nat :: !CityLinkAt(w, i)
    ensures NormaliseRouteNumber(raw) == w
  {
    StripPadding(raw, lead, body, trail);
    RemovePrefixBeforeWord(fill, w);
    StripKeepsWord(w);
  }

  /** The route number `" CityLink-Blue "` normalises to `"BLUE"`. */
  lemma NormaliseRouteNumberExample()
    ensures NormaliseRouteNumber(" CityLink-Blue ") == "BLUE"
  {
    var raw, body, w := " CityLink-Blue ", "CityLink-Blue", "BLUE";
    assert raw == " " + body + " ";
    assert Upper(body) == CityLink + "-" + w;
    ShortTextHasNoCityLink(w);
    NormaliseCityLinkNumber(raw, " ", body, " ", "-", w);
  }

  /** Text shorter than `CITYLINK` cannot hold it. */
  lemma ShortTextHasNoCityLink(w: string)
    requires |w| < 8
    ensures forall i: nat :: !CityLinkAt(w, i)
  {
  }

  // ---------------------------------------------------------------------------
  // related_ids = stops.loc[mask, 'stop_id'].tolist()

  /** Row numbers of the stops that serve `r`, in table order. */
  function MatchingRows(stops: seq<Stop>, r: string): (rows: seq<nat>)
    ensures forall m :: 0 <= m < |rows| ==> rows[m] < |stops|
    ensures forall m, n :: 0 <= m < n < |rows| ==> rows[m] < rows[n]
    ensures forall k :: 0 <= k < |stops| ==> (k in rows <==> ServesRoute(stops[k].routes, r))
    decreases |stops|
  {
    if stops == [] then []
    else
      var last := |stops| - 1;
      MatchingRows(stops[..last], r) + (if ServesRoute(stops[last].routes, r) then [last] else [])
  }

  /** The ids of the stops that serve `r`, in table order. */
  function RelatedIds(stops: seq<Stop>, r: string): (ids: seq<Graph.NodeId>)
    ensures |ids| <= |stops|
    decreases |stops|
  {
    if stops == [] then []
    else
      var last := |stops| - 1;
      RelatedIds(stops[..last], r) + (if ServesRoute(stops[last].routes, r) then [stops[last].id] else [])
  }

  /** `related_ids` lists the id of every matching row and nothing else, in row order. */
  lemma {:induction false} RelatedIdsInTableOrder(stops: seq<Stop>, r: string)
    ensures |RelatedIds(stops, r)| == |MatchingRows(stops, r)|
    ensures forall m :: 0 <= m < |RelatedIds(stops, r)| ==>
      RelatedIds(stops, r)[m] == stops[MatchingRows(stops, r)[m]].id
    decreases |stops|
  {
    if stops != [] {
      var last := |stops| - 1;
      var pre := stops[..last];
      RelatedIdsInTableOrder(pre, r);
      var ids, rows := RelatedIds(pre, r), MatchingRows(pre, r);
      var serves := ServesRoute(stops[last].routes, r);
      var all, allRows := RelatedIds(stops, r), MatchingRows(stops, r);
      assert all == ids + (if serves then [stops[last].id] else []);
      assert allRows == rows + (if serves then [last] else []);
      forall m | 0 <= m < |all| ensures all[m] == stops[allRows[m]].id {
        if m < |ids| {
          assert all[m] == ids[m] && allRows[m] == rows[m];
          assert pre[rows[m]] == stops[rows[m]];
        }
      }
    }
  }

  /** Every id in `related_ids` belongs to a stop of the table. */
  lemma RelatedIdsAreStops(stops: seq<Stop>, r: string, id: Graph.NodeId)
    requires id in RelatedIds(stops, r)
    ensures exists k :: 0 <= k < |stops| && stops[k].id == id && ServesRoute(stops[k].routes, r)
  {
    RelatedIdsInTableOrder(stops, r);
    var m :| 0 <= m < |RelatedIds(stops, r)| && RelatedIds(stops, r)[m] == id;
    var k := MatchingRows(stops, r)[m];
    assert k in MatchingRows(stops, r);
  }
}
