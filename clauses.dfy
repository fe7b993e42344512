/**
 * The clause rules of `applyFromText` (scripts/comment_to_config.js), one
 * matcher per regular expression. Each matcher tries one start position and
 * follows the JavaScript backtracking order literally: a greedy quantifier
 * tries its longest run first and gives back one character at a time, a lazy
 * one tries its shortest first. Searches over start positions go left to right
 * (Text.FirstFrom, Text.AnyFrom).
 *
 * Brand, colour and feature rules read the lower-cased text; hero, email, phone
 * and service rules read the original text under the `i` flag (Text.LitCI).
 */
module Clauses {
  import opened Text
  import opened Schema

  // ---------- /rename\s+brand\s+to\s+(.+?)(;|$)/ ----------

  /**
   * The lazy `(.+?)(;|$)` once its capture is about to take `t[e - 1]`: the
   * shortest end `x >= e` such that the capture crosses no line terminator and
   * is followed by `;` or by the end of the text.
   */
  function LazyEnd(t: string, e: nat): (r: Option<nat>)
    requires e >= 1
    ensures r.Some? ==> e <= r.value <= |t| && (r.value == |t| || t[r.value] == ';')
    ensures r.Some? ==> forall k :: e - 1 <= k < r.value ==> !IsLineTerminator(t[k])
    ensures r.Some? ==> forall y :: e <= y < r.value ==> t[y] != ';'
    decreases |t| + 1 - e
  {
    if e > |t| || IsLineTerminator(t[e - 1]) then None
    else if e == |t| || t[e] == ';' then Some(e)
    else LazyEnd(t, e + 1)
  }

  /**
   * `\s+(.+?)(;|$)` after `to`, where `t[c..k]` is the whitespace run: the capture
   * starts at `k`, then at `k - 1`, ... down to `c + 1`, as `\s+` gives back
   * characters. Yields the span of the capture.
   */
  function BrandCapture(t: string, c: nat, k: nat): (r: Option<(nat, nat)>)
    requires c <= k <= |t|
    ensures r.Some? ==> c < r.value.0 < r.value.1 <= |t|
    ensures r.Some? ==> forall j :: r.value.0 <= j < r.value.1 ==> !IsLineTerminator(t[j])
    ensures r.Some? ==> r.value.1 == |t| || t[r.value.1] == ';'
    decreases k
  {
    if k == c then None
    else match LazyEnd(t, k + 1)
      case Some(e) => Some((k, e))
      case None => BrandCapture(t, c, k - 1)
  }

  /** The brand pattern tried at position `i` of the lower-cased text. */
  function RenameBrandAt(t: string, i: nat): (r: Option<(nat, nat)>)
    ensures r.Some? ==> Lit(t, i, "rename") && i + 16 <= r.value.0 < r.value.1 <= |t|
    ensures r.Some? ==> forall j :: r.value.0 <= j < r.value.1 ==> !IsLineTerminator(t[j])
    ensures r.Some? ==> r.value.1 == |t| || t[r.value.1] == ';'
  {
    if !Lit(t, i, "rename") then None
    else
      var a := SpaceEnd(t, i + 6);
      if a == i + 6 || !Lit(t, a, "brand") then None
      else
        var b := SpaceEnd(t, a + 5);
        if b == a + 5 || !Lit(t, b, "to") then None
        else
          var c := SpaceEnd(t, b + 2);
          if c == b + 2 then None else BrandCapture(t, b + 2, c)
  }

  /** The text of a capture span, with what the brand rule knows about it. */
  lemma BrandSlice(t: string, a: nat, b: nat)
    requires a < b <= |t|
    requires forall j :: a <= j < b ==> !IsLineTerminator(t[j])
    requires b == |t| || t[b] == ';'
    ensures var x := t[a..b];
            |x| >= 1 && (forall k :: 0 <= k < |x| ==> !IsLineTerminator(x[k]))
            && Lit(t, a, x) && (a + |x| == |t| || t[a + |x|] == ';')
  {
  }

  /** The leftmost position where the brand pattern matches, with the capture span. */
  function RenameBrandMatch(t: string): Option<(nat, (nat, nat))>
  {
    FirstFrom(|t|, 0, (i: nat) => RenameBrandAt(t, i))
  }

  /** `t.match(...)[1]` for the brand pattern: the capture of the leftmost match. */
  function RenameBrand(t: string): (r: Option<string>)
    ensures r.Some? ==> |r.value| >= 1 && forall k :: 0 <= k < |r.value| ==> !IsLineTerminator(r.value[k])
  {
    var m := RenameBrandMatch(t);
    if m.None? then None
    else
      var span := m.value.1;
      assert RenameBrandAt(t, m.value.0) == Some(span);
      BrandSlice(t, span.0, span.1);
      Some(t[span.0..span.1])
  }

  /** The capture is the span of the leftmost match, followed by `;` or by the end of `t`. */
  lemma RenameBrandFound(t: string)
    ensures RenameBrandMatch(t).Some? <==> RenameBrand(t).Some?
    ensures RenameBrandMatch(t).Some? ==>
              var span := RenameBrandMatch(t).value.1;
              span.0 < span.1 <= |t| && RenameBrand(t).value == t[span.0..span.1] &&
              (span.1 == |t| || t[span.1] == ';')
  {
    var m := RenameBrandMatch(t);
    if m.Some? {
      var span := m.value.1;
      assert RenameBrandAt(t, m.value.0) == Some(span);
    }
  }

  /**
   * `(.+?)(;|$)` with the capture at `t[x..y]`: it holds no line terminator, and `y`
   * is the first `;` after `x` or the end of the text (`$` without the `m` flag).
   */
  ghost predicate BrandEnd(t: string, x: nat, y: nat) {
    x < y <= |t| && (y == |t| || t[y] == ';') &&
    (forall k :: x < k < y ==> t[k] != ';') &&
    (forall k :: x <= k < y ==> !IsLineTerminator(t[k]))
  }

  /** The lazy capture from `e - 1` succeeds exactly with the end `BrandEnd` describes. */
  lemma {:induction false} LazyEndIff(t: string, e: nat, y: nat)
    requires e >= 1
    ensures LazyEnd(t, e) == Some(y) <==> BrandEnd(t, e - 1, y)
    decreases |t| + 1 - e
  {
    if BrandEnd(t, e - 1, y) && e < |t| && t[e] != ';' {
      LazyEndIff(t, e + 1, y);
    }
  }

  /**
   * Backtracking of `\s+` into the capture: the capture starts at the last position
   * in `c + 1..k` from which the lazy capture succeeds.
   */
  lemma {:induction false} BrandCaptureIff(t: string, c: nat, k: nat, x: nat, y: nat)
    requires c <= k <= |t|
    ensures BrandCapture(t, c, k) == Some((x, y)) <==>
            c < x <= k && BrandEnd(t, x, y) && forall x': nat, y': nat :: x < x' <= k ==> !BrandEnd(t, x', y')
    decreases k
  {
    if k > c {
      forall y': nat ensures LazyEnd(t, k + 1) == Some(y') <==> BrandEnd(t, k, y') {
        LazyEndIff(t, k + 1, y');
      }
      match LazyEnd(t, k + 1)
      case Some(e) =>
        assert BrandEnd(t, k, e);
      case None =>
        BrandCaptureIff(t, c, k - 1, x, y);
    }
  }

  /**
   * `rename\s+brand\s+to\s+` at `i`, with `brand` at `a`, `to` at `b` and the last
   * whitespace run ending at `c` (all of it: a greedy `\s+`).
   */
  predicate BrandPrefix(t: string, i: nat, a: nat, b: nat, c: nat) {
    Lit(t, i, "rename") && i + 6 < a && Spaces(t, i + 6, a) && Lit(t, a, "brand") &&
    a + 5 < b && Spaces(t, a + 5, b) && Lit(t, b, "to") &&
    b + 2 < c && Spaces(t, b + 2, c) && (c == |t| || !IsSpace(t[c]))
  }

  /**
   * The brand pattern matches at `i` with its capture at `t[x..y]`, stated without the
   * scanning functions: the capture starts in the whitespace after `to` (or just
   * after it), at the last such position from which `(.+?)(;|$)` succeeds.
   */
  ghost predicate BrandMatch(t: string, i: nat, x: nat, y: nat) {
    exists a: nat, b: nat, c: nat :: BrandMatchVia(t, i, a, b, c, x, y)
  }

  /** Once the prefix is there, the match at `i` is the backtracking capture after `to`. */
  lemma PrefixedCapture(t: string, i: nat, a: nat, b: nat, c: nat)
    requires BrandPrefix(t, i, a, b, c)
    ensures RenameBrandAt(t, i) == BrandCapture(t, b + 2, c)
  {
    assert t[a] == t[a..a + 5][0] && t[b] == t[b..b + 2][0];
    SpacesThen(t, i + 6, a);
    SpacesThen(t, a + 5, b);
    SpacesThen(t, b + 2, c);
  }

  /** A match at `i` has the prefix, with the runs the scanning found. */
  lemma CaptureHasPrefix(t: string, i: nat, x: nat, y: nat) returns (a: nat, b: nat, c: nat)
    requires RenameBrandAt(t, i) == Some((x, y))
    ensures BrandPrefix(t, i, a, b, c) && BrandCapture(t, b + 2, c) == Some((x, y))
  {
    a := SpaceEnd(t, i + 6);
    b := SpaceEnd(t, a + 5);
    c := SpaceEnd(t, b + 2);
    assert Lit(t, i, "rename") && a != i + 6 && Lit(t, a, "brand") && b != a + 5 && Lit(t, b, "to") && c != b + 2;
    RunsArePrefix(t, i, a, b, c);
  }

  /** The greedy runs between the words of the prefix make up `BrandPrefix`. */
  lemma RunsArePrefix(t: string, i: nat, a: nat, b: nat, c: nat)
    requires Lit(t, i, "rename") && i + 6 <= |t| && a == SpaceEnd(t, i + 6) && a != i + 6
    requires Lit(t, a, "brand") && a + 5 <= |t| && b == SpaceEnd(t, a + 5) && b != a + 5
    requires Lit(t, b, "to") && b + 2 <= |t| && c == SpaceEnd(t, b + 2) && c != b + 2
    ensures BrandPrefix(t, i, a, b, c)
  {
    SpacesToEnd(t, i + 6);
    SpacesToEnd(t, a + 5);
    SpacesToEnd(t, b + 2);
  }

  /** A match the scanning finds has the shape `BrandMatch` states. */
  lemma BrandMatchOfAt(t: string, i: nat, x: nat, y: nat)
    requires RenameBrandAt(t, i) == Some((x, y))
    ensures BrandMatch(t, i, x, y)
  {
    var a, b, c := CaptureHasPrefix(t, i, x, y);
    BrandCaptureIff(t, b + 2, c, x, y);
    assert BrandMatchVia(t, i, a, b, c, x, y);
  }

  /** The body of `BrandMatch`, with the positions of `brand`, `to` and the end of the whitespace named. */
  ghost predicate BrandMatchVia(t: string, i: nat, a: nat, b: nat, c: nat, x: nat, y: nat) {
    BrandPrefix(t, i, a, b, c) && b + 2 < x <= c && BrandEnd(t, x, y) &&
    forall x': nat, y': nat :: x < x' <= c ==> !BrandEnd(t, x', y')
  }

  /** A text of that shape is matched, with that capture. */
  lemma AtOfBrandMatch(t: string, i: nat, a: nat, b: nat, c: nat, x: nat, y: nat)
    requires BrandMatchVia(t, i, a, b, c, x, y)
    ensures RenameBrandAt(t, i) == Some((x, y))
  {
    PrefixedCapture(t, i, a, b, c);
    BrandCaptureIff(t, b + 2, c, x, y);
  }

  lemma RenameBrandAtIff(t: string, i: nat, x: nat, y: nat)
    ensures RenameBrandAt(t, i) == Some((x, y)) <==> BrandMatch(t, i, x, y)
  {
    if RenameBrandAt(t, i) == Some((x, y)) {
      BrandMatchOfAt(t, i, x, y);
    }
    if BrandMatch(t, i, x, y) {
      var a: nat, b: nat, c: nat :| BrandMatchVia(t, i, a, b, c, x, y);
      AtOfBrandMatch(t, i, a, b, c, x, y);
    }
  }

  /** The brand rule finds nothing exactly when the pattern matches nowhere. */
  lemma RenameBrandAbsent(t: string)
    ensures RenameBrand(t).None? <==> forall i: nat, x: nat, y: nat :: !BrandMatch(t, i, x, y)
  {
    var at := (i: nat) => RenameBrandAt(t, i);
    FirstFromLeftmost(|t|, 0, at);
    if RenameBrand(t).None? {
      forall i: nat, x: nat, y: nat ensures !BrandMatch(t, i, x, y) {
        RenameBrandAtIff(t, i, x, y);
        if i <= |t| {
          assert at(i).None?;
        }
      }
    } else {
      var m := RenameBrandMatch(t).value;
      RenameBrandAtIff(t, m.0, m.1.0, m.1.1);
    }
  }

  /** The brand is the capture of the leftmost match of the pattern. */
  lemma RenameBrandLeftmost(t: string, i: nat, x: nat, y: nat)
    requires BrandMatch(t, i, x, y)
    requires forall j: nat, x': nat, y': nat :: j < i ==> !BrandMatch(t, j, x', y')
    ensures RenameBrand(t) == Some(t[x..y])
  {
    var at := (j: nat) => RenameBrandAt(t, j);
    RenameBrandAtIff(t, i, x, y);
    forall k | 0 <= k < i ensures at(k).None? {
      if at(k).Some? {
        RenameBrandAtIff(t, k, at(k).value.0, at(k).value.1);
      }
    }
    FirstFromIs(|t|, 0, at, i, (x, y));
  }


  // ---------- whole-word and plain-substring tests ----------

  /** `\bw\b` at position `j`. */
  predicate WordAt(t: string, j: nat, w: string) {
    Boundary(t, j) && Lit(t, j, w) && Boundary(t, j + |w|)
  }

  /** `/\bw\b/.test(t)`. */
  predicate HasWord(t: string, w: string)
  {
    AnyFrom(|t|, 0, (j: nat) => WordAt(t, j, w))
  }

  lemma HasWordIff(t: string, w: string)
    ensures HasWord(t, w) <==> exists j: nat :: j <= |t| && WordAt(t, j, w)
  {
    var at := (j: nat) => WordAt(t, j, w);
    assert forall j: nat :: at(j) == WordAt(t, j, w);
    AnyFromIff(|t|, 0, at);
  }

  /** `/add faq\b/.test(t)`. */
  predicate HasAddFaq(t: string)
  {
    AnyFrom(|t|, 0, (j: nat) => Lit(t, j, "add faq") && Boundary(t, j + 7))
  }

  lemma HasAddFaqIff(t: string)
    ensures HasAddFaq(t) <==> exists j: nat :: j <= |t| && Lit(t, j, "add faq") && Boundary(t, j + 7)
  {
    var at := (j: nat) => Lit(t, j, "add faq") && Boundary(t, j + 7);
    assert forall j: nat :: at(j) == (Lit(t, j, "add faq") && Boundary(t, j + 7));
    AnyFromIff(|t|, 0, at);
  }

  // ---------- /hero(?:\s*image)?\s*:\s*(https?:\S+)/i ----------

  /** `(https?:\S+)` at position `d`: the end of the URL. */
  function UrlAt(s: string, d: nat): (r: Option<nat>)
    requires d <= |s|
    ensures r.Some? ==> d + 6 <= r.value <= |s| && LitCI(s, d, "http")
    ensures r.Some? ==> s[d + 4] == ':' || (LowerChar(s[d + 4]) == 's' && s[d + 5] == ':')
    ensures r.Some? ==> forall k :: d <= k < r.value ==> !IsSpace(s[k])
    ensures r.Some? ==> r.value == |s| || IsSpace(s[r.value])
  {
    if !LitCI(s, d, "http") then None
    else
      LitCIChars(s, d, "http");
      var e := d + 4;
      if e + 2 < |s| && LowerChar(s[e]) == 's' && s[e + 1] == ':' && !IsSpace(s[e + 2]) then
        RunEndAll(s, e + 2, NotSpace);
        Some(RunEnd(s, e + 2, NotSpace))
      else if e + 1 < |s| && s[e] == ':' && !IsSpace(s[e + 1]) then
        RunEndAll(s, e + 1, NotSpace);
        Some(RunEnd(s, e + 1, NotSpace))
      else None
  }

  /** `\s*:\s*(https?:\S+)` from position `b`. */
  function HeroTail(s: string, b: nat): (r: Option<(nat, nat)>)
    requires b <= |s|
    ensures r.Some? ==> b < r.value.0 && r.value.0 + 6 <= r.value.1 <= |s|
    ensures r.Some? ==> LitCI(s, r.value.0, "http")
    ensures r.Some? ==> forall k :: r.value.0 <= k < r.value.1 ==> !IsSpace(s[k])
    ensures r.Some? ==> r.value.1 == |s| || IsSpace(s[r.value.1])
  {
    var c := SpaceEnd(s, b);
    if c < |s| && s[c] == ':' then
      var d := SpaceEnd(s, c + 1);
      match UrlAt(s, d)
      case Some(g) => Some((d, g))
      case None => None
    else None
  }

  /** The hero pattern at position `i`: with the `image` group first, then without it. */
  function HeroAt(s: string, i: nat): (r: Option<(nat, nat)>)
    ensures r.Some? ==> LitCI(s, i, "hero") && i + 4 < r.value.0 && r.value.0 + 6 <= r.value.1 <= |s|
    ensures r.Some? ==> LitCI(s, r.value.0, "http")
    ensures r.Some? ==> forall k :: r.value.0 <= k < r.value.1 ==> !IsSpace(s[k])
    ensures r.Some? ==> r.value.1 == |s| || IsSpace(s[r.value.1])
  {
    if !LitCI(s, i, "hero") then None
    else
      var g := SpaceEnd(s, i + 4);
      if LitCI(s, g, "image") then
        match HeroTail(s, g + 5)
        case Some(span) => Some(span)
        case None => HeroTail(s, i + 4)
      else HeroTail(s, i + 4)
  }

  /** The text of a URL span, with what the hero rule knows about it. */
  lemma UrlSlice(s: string, a: nat, b: nat)
    requires a + 6 <= b <= |s| && LitCI(s, a, "http")
    requires forall k :: a <= k < b ==> !IsSpace(s[k])
    requires b == |s| || IsSpace(s[b])
    ensures var u := s[a..b];
            |u| >= 6 && LitCI(u, 0, "http") && (forall k :: 0 <= k < |u| ==> !IsSpace(u[k]))
            && Lit(s, a, u) && (a + |u| == |s| || IsSpace(s[a + |u|]))
  {
    var u := s[a..b];
    assert u[0..4] == s[a..a + 4];
  }

  function HeroMatch(s: string): Option<(nat, (nat, nat))>
  {
    FirstFrom(|s|, 0, (i: nat) => HeroAt(s, i))
  }

  /**
   * `heroUrl[1]`: the original-case URL of the leftmost hero clause. It runs to the
   * next whitespace or the end, so a `;` right after the URL stays in it.
   */
  function HeroUrl(s: string): (r: Option<string>)
    ensures r.Some? ==> |r.value| >= 6 && LitCI(r.value, 0, "http")
    ensures r.Some? ==> forall k :: 0 <= k < |r.value| ==> !IsSpace(r.value[k])
  {
    var m := HeroMatch(s);
    if m.None? then None
    else
      var span := m.value.1;
      assert HeroAt(s, m.value.0) == Some(span);
      UrlSlice(s, span.0, span.1);
      Some(s[span.0..span.1])
  }

  /** `\s*:` from `b`, with the colon at `c`. */
  predicate ColonAfter(s: string, b: nat, c: nat) {
    Spaces(s, b, c) && c < |s| && s[c] == ':'
  }

  /** `\s*:\s*` from `b`, ending at `d`. */
  ghost predicate ColonGap(s: string, b: nat, d: nat) {
    exists c: nat :: ColonAfter(s, b, c) && Spaces(s, c + 1, d)
  }

  /** Whitespace followed by a colon ends where the greedy `\s*` ends. */
  lemma ColonAfterGreedy(s: string, b: nat, c: nat)
    requires ColonAfter(s, b, c)
    ensures SpaceEnd(s, b) == c
  {
    SpacesThen(s, b, c);
  }

  /**
   * `https?:\S+` at `d`, ending at `g`: `http` in any case, an optional `s`, a colon
   * and at least one more character, none of them whitespace, and whitespace or the
   * end after them.
   */
  predicate UrlShape(s: string, d: nat, g: nat) {
    d + 6 <= g <= |s| && LitCI(s, d, "http") &&
    (s[d + 4] == ':' || (LowerChar(s[d + 4]) == 's' && s[d + 5] == ':' && d + 7 <= g)) &&
    (forall k :: d <= k < g ==> !IsSpace(s[k])) && (g == |s| || IsSpace(s[g]))
  }

  lemma UrlAtIff(s: string, d: nat, g: nat)
    requires d <= |s|
    ensures UrlAt(s, d) == Some(g) <==> UrlShape(s, d, g)
  {
    if LitCI(s, d, "http") {
      LitCIChars(s, d, "http");
      var e := d + 4;
      if e + 2 < |s| && LowerChar(s[e]) == 's' && s[e + 1] == ':' && !IsSpace(s[e + 2]) {
        RunEndAll(s, e + 2, NotSpace);
        assert RunEnd(s, e + 2, NotSpace) > e + 2;
      } else if e + 1 < |s| && s[e] == ':' && !IsSpace(s[e + 1]) {
        RunEndAll(s, e + 1, NotSpace);
      }
      if UrlShape(s, d, g) {
        if s[e] == ':' {
          RunEndUnique(s, e + 1, g, NotSpace);
        } else {
          RunEndUnique(s, e + 2, g, NotSpace);
        }
      }
    }
  }

  lemma HeroTailIff(s: string, b: nat, d: nat, g: nat)
    requires b <= |s|
    ensures HeroTail(s, b) == Some((d, g)) <==> ColonGap(s, b, d) && UrlShape(s, d, g)
  {
    var c := SpaceEnd(s, b);
    SpaceEndAll(s, b);
    if HeroTail(s, b) == Some((d, g)) {
      SpaceEndAll(s, c + 1);
      UrlAtIff(s, d, g);
      assert ColonAfter(s, b, c) && Spaces(s, c + 1, d);
    }
    if ColonGap(s, b, d) && UrlShape(s, d, g) {
      var c': nat :| ColonAfter(s, b, c') && Spaces(s, c' + 1, d);
      ColonAfterGreedy(s, b, c');
      SpacesThen(s, c' + 1, d);
      UrlAtIff(s, d, g);
    }
  }

  /**
   * The hero pattern at `i` with its URL at `s[d..g]`, stated without the scanning
   * functions: `hero`, optionally whitespace and `image`, then `\s*:\s*` and the URL.
   */
  ghost predicate HeroShape(s: string, i: nat, d: nat, g: nat) {
    LitCI(s, i, "hero") &&
    (ColonGap(s, i + 4, d) || exists j: nat :: Spaces(s, i + 4, j) && LitCI(s, j, "image") && ColonGap(s, j + 5, d)) &&
    UrlShape(s, d, g)
  }

  lemma HeroAtIff(s: string, i: nat, d: nat, g: nat)
    ensures HeroAt(s, i) == Some((d, g)) <==> HeroShape(s, i, d, g)
  {
    if LitCI(s, i, "hero") {
      var j0 := SpaceEnd(s, i + 4);
      SpaceEndAll(s, i + 4);
      HeroTailIff(s, i + 4, d, g);
      forall j: nat | Spaces(s, i + 4, j) && LitCI(s, j, "image") ensures j == j0 {
        LitCIChars(s, j, "image");
        LetterNotSpace(s[j]);
        SpacesThen(s, i + 4, j);
      }
      if LitCI(s, j0, "image") {
        LitCIChars(s, j0, "image");
        HeroTailIff(s, j0 + 5, d, g);
        assert Spaces(s, i + 4, j0);
      }
    }
  }

  /** The hero rule finds nothing exactly when the pattern matches nowhere. */
  lemma HeroUrlAbsent(s: string)
    ensures HeroUrl(s).None? <==> forall i: nat, d: nat, g: nat :: !HeroShape(s, i, d, g)
  {
    var at := (i: nat) => HeroAt(s, i);
    FirstFromLeftmost(|s|, 0, at);
    if HeroUrl(s).None? {
      forall i: nat, d: nat, g: nat ensures !HeroShape(s, i, d, g) {
        HeroAtIff(s, i, d, g);
        if i <= |s| {
          assert at(i).None?;
        }
      }
    } else {
      var m := HeroMatch(s).value;
      HeroAtIff(s, m.0, m.1.0, m.1.1);
    }
  }

  /** The hero URL is the original-case URL of the leftmost match of the pattern. */
  lemma HeroUrlLeftmost(s: string, i: nat, d: nat, g: nat)
    requires HeroShape(s, i, d, g)
    requires forall j: nat, d': nat, g': nat :: j < i ==> !HeroShape(s, j, d', g')
    ensures HeroUrl(s) == Some(s[d..g])
  {
    var at := (j: nat) => HeroAt(s, j);
    HeroAtIff(s, i, d, g);
    forall k | 0 <= k < i ensures at(k).None? {
      if at(k).Some? {
        HeroAtIff(s, k, at(k).value.0, at(k).value.1);
      }
    }
    FirstFromIs(|s|, 0, at, i, (d, g));
  }


  // ---------- /email\s*:\s*([^\s;]+)/i ----------

  predicate IsEmailChar(c: char) { !IsSpace(c) && c != ';' }

  function EmailAt(s: string, i: nat): (r: Option<(nat, nat)>)
    ensures r.Some? ==> LitCI(s, i, "email") && i + 5 < r.value.0 < r.value.1 <= |s|
    ensures r.Some? ==> forall k :: r.value.0 <= k < r.value.1 ==> IsEmailChar(s[k])
    ensures r.Some? ==> r.value.1 == |s| || !IsEmailChar(s[r.value.1])
  {
    if !LitCI(s, i, "email") then None
    else
      var c := SpaceEnd(s, i + 5);
      if c < |s| && s[c] == ':' then
        var d := SpaceEnd(s, c + 1);
        var e := RunEnd(s, d, IsEmailChar);
        RunEndAll(s, d, IsEmailChar);
        if e > d then Some((d, e)) else None
      else None
  }

  /** The text of an address span, with what the email rule knows about it. */
  lemma EmailSlice(s: string, a: nat, b: nat)
    requires a < b <= |s|
    requires forall k :: a <= k < b ==> IsEmailChar(s[k])
    requires b == |s| || !IsEmailChar(s[b])
    ensures var x := s[a..b];
            |x| >= 1 && (forall k :: 0 <= k < |x| ==> IsEmailChar(x[k]))
            && Lit(s, a, x) && (a + |x| == |s| || !IsEmailChar(s[a + |x|]))
  {
  }

  function EmailMatch(s: string): Option<(nat, (nat, nat))>
  {
    FirstFrom(|s|, 0, (i: nat) => EmailAt(s, i))
  }

  /** `email[1]` of the leftmost email clause: a maximal run free of whitespace and `;`. */
  function Email(s: string): (r: Option<string>)
    ensures r.Some? ==> |r.value| >= 1 && forall k :: 0 <= k < |r.value| ==> IsEmailChar(r.value[k])
  {
    var m := EmailMatch(s);
    if m.None? then None
    else
      var span := m.value.1;
      assert EmailAt(s, m.value.0) == Some(span);
      EmailSlice(s, span.0, span.1);
      Some(s[span.0..span.1])
  }

  /**
   * The email pattern at `i` with its address at `s[d..e]`, stated without the
   * scanning functions: `email`, `\s*:\s*`, then a maximal nonempty run free of
   * whitespace and `;`.
   */
  ghost predicate EmailShape(s: string, i: nat, d: nat, e: nat) {
    LitCI(s, i, "email") && ColonGap(s, i + 5, d) && d < e <= |s| &&
    (forall k :: d <= k < e ==> IsEmailChar(s[k])) && (e == |s| || !IsEmailChar(s[e]))
  }

  lemma EmailAtIff(s: string, i: nat, d: nat, e: nat)
    ensures EmailAt(s, i) == Some((d, e)) <==> EmailShape(s, i, d, e)
  {
    if LitCI(s, i, "email") {
      var c := SpaceEnd(s, i + 5);
      SpaceEndAll(s, i + 5);
      if c < |s| && s[c] == ':' {
        var d0 := SpaceEnd(s, c + 1);
        SpaceEndAll(s, c + 1);
        assert ColonAfter(s, i + 5, c) && Spaces(s, c + 1, d0);
        if EmailShape(s, i, d, e) {
          var c': nat :| ColonAfter(s, i + 5, c') && Spaces(s, c' + 1, d);
          ColonAfterGreedy(s, i + 5, c');
          SpacesThen(s, c + 1, d);
          RunEndUnique(s, d, e, IsEmailChar);
        }
      } else if EmailShape(s, i, d, e) {
        var c': nat :| ColonAfter(s, i + 5, c') && Spaces(s, c' + 1, d);
        ColonAfterGreedy(s, i + 5, c');
      }
    }
  }

  /** The email rule finds nothing exactly when the pattern matches nowhere. */
  lemma EmailAbsent(s: string)
    ensures Email(s).None? <==> forall i: nat, d: nat, e: nat :: !EmailShape(s, i, d, e)
  {
    var at := (i: nat) => EmailAt(s, i);
    FirstFromLeftmost(|s|, 0, at);
    if Email(s).None? {
      forall i: nat, d: nat, e: nat ensures !EmailShape(s, i, d, e) {
        EmailAtIff(s, i, d, e);
        if i <= |s| {
          assert at(i).None?;
        }
      }
    } else {
      var m := EmailMatch(s).value;
      EmailAtIff(s, m.0, m.1.0, m.1.1);
    }
  }

  /** The address is the run of the leftmost match of the pattern. */
  lemma EmailLeftmost(s: string, i: nat, d: nat, e: nat)
    requires EmailShape(s, i, d, e)
    requires forall j: nat, d': nat, e': nat :: j < i ==> !EmailShape(s, j, d', e')
    ensures Email(s) == Some(s[d..e])
  {
    var at := (j: nat) => EmailAt(s, j);
    EmailAtIff(s, i, d, e);
    forall k | 0 <= k < i ensures at(k).None? {
      if at(k).Some? {
        EmailAtIff(s, k, at(k).value.0, at(k).value.1);
      }
    }
    FirstFromIs(|s|, 0, at, i, (d, e));
  }


  // ---------- /phone\s*:\s*([+\d\s()-]+)/i ----------

  /** The class `[+\d\s()-]`. */
  predicate IsPhoneChar(c: char) {
    c == '+' || IsDigit(c) || IsSpace(c) || c == '(' || c == ')' || c == '-'
  }

  /**
   * `\s*([+\d\s()-]+)` after the colon at `c - 1`, where `\s*` currently holds
   * `s[c..k]`: the greedy class run from `k`, or, when it is empty, the same with
   * one character given back by `\s*`.
   */
  function PhoneCapture(s: string, c: nat, k: nat): (r: Option<(nat, nat)>)
    requires c <= k <= |s|
    ensures r.Some? ==> c <= r.value.0 < r.value.1 <= |s|
    ensures r.Some? ==> forall j :: r.value.0 <= j < r.value.1 ==> IsPhoneChar(s[j])
    decreases k - c
  {
    var e := RunEnd(s, k, IsPhoneChar);
    RunEndAll(s, k, IsPhoneChar);
    if e > k then Some((k, e))
    else if k == c then None
    else PhoneCapture(s, c, k - 1)
  }

  /** `phone\s*:` at position `i`: the position just after the colon. */
  function PhoneColon(s: string, i: nat): (r: Option<nat>)
    ensures r.Some? ==> LitCI(s, i, "phone") && i + 6 <= r.value <= |s|
  {
    if !LitCI(s, i, "phone") then None
    else
      var c := SpaceEnd(s, i + 5);
      if c < |s| && s[c] == ':' then Some(c + 1) else None
  }

  /** `phone\s*:` matches at `i` exactly when `d - 1` is the colon after `phone` and whitespace. */
  lemma PhoneColonIff(s: string, i: nat, d: nat)
    ensures PhoneColon(s, i) == Some(d) <==> LitCI(s, i, "phone") && 1 <= d && ColonAfter(s, i + 5, d - 1)
  {
    if LitCI(s, i, "phone") {
      SpaceEndAll(s, i + 5);
      if 1 <= d && ColonAfter(s, i + 5, d - 1) {
        ColonAfterGreedy(s, i + 5, d - 1);
      }
    }
  }

  function PhoneAt(s: string, i: nat): (r: Option<(nat, nat)>)
    ensures r.Some? ==> LitCI(s, i, "phone") && i + 5 < r.value.0 < r.value.1 <= |s|
    ensures r.Some? ==> forall j :: r.value.0 <= j < r.value.1 ==> IsPhoneChar(s[j])
  {
    match PhoneColon(s, i)
    case Some(d) => PhoneCapture(s, d, SpaceEnd(s, d))
    case None => None
  }

  /** `phone[1].trim()` of the leftmost phone clause. */
  function Phone(s: string): (r: Option<string>)
    ensures r.Some? ==> IsTrimmed(r.value) && forall ch :: ch in r.value ==> IsPhoneChar(ch)
  {
    var m := FirstFrom(|s|, 0, (i: nat) => PhoneAt(s, i));
    if m.None? then None
    else
      var span := m.value.1;
      assert PhoneAt(s, m.value.0) == Some(span);
      var x := s[span.0..span.1];
      TrimInfix(x);
      assert forall ch :: ch in x ==> IsPhoneChar(ch);
      Some(Trim(x))
  }

  /**
   * The phone rule as the source means it: the trimmed run of `+`, digits,
   * whitespace, `(`, `)` and `-` that follows the colon at `d - 1` (an empty run
   * is no match).
   */
  function PhoneRun(s: string, d: nat): (r: Option<string>)
    requires d <= |s|
  {
    var e := RunEnd(s, d, IsPhoneChar);
    if e > d then Some(Trim(s[d..e])) else None
  }

  function PhoneRefAt(s: string, i: nat): Option<string>
  {
    match PhoneColon(s, i)
    case Some(d) => PhoneRun(s, d)
    case None => None
  }

  function PhoneRef(s: string): Option<string>
  {
    var m := FirstFrom(|s|, 0, (i: nat) => PhoneRefAt(s, i));
    if m.None? then None else Some(m.value.1)
  }

  /** The class run reaches past the whitespace run, since `\s` is part of the class. */
  lemma SpacesArePhoneChars(s: string, c: nat)
    requires c <= |s|
    ensures SpaceEnd(s, c) <= RunEnd(s, c, IsPhoneChar)
  {
    SpaceEndAll(s, c);
    RunEndCovers(s, c, SpaceEnd(s, c), IsPhoneChar);
  }

  /** When the class run goes beyond the whitespace, `\s*` gives nothing back. */
  lemma PhoneCaptureLong(s: string, c: nat)
    requires c <= |s|
    requires SpaceEnd(s, c) < RunEnd(s, c, IsPhoneChar)
    ensures PhoneCapture(s, c, SpaceEnd(s, c)) == Some((SpaceEnd(s, c), RunEnd(s, c, IsPhoneChar)))
    ensures PhoneRun(s, c) == Some(Trim(s[SpaceEnd(s, c)..RunEnd(s, c, IsPhoneChar)]))
  {
    var w := SpaceEnd(s, c);
    var run := RunEnd(s, c, IsPhoneChar);
    SpaceEndAll(s, c);
    RunEndAll(s, c, IsPhoneChar);
    RunEndUnique(s, w, run, IsPhoneChar);
    assert s[c..run] == s[c..w] + s[w..run];
    TrimAfterSpaces(s[c..w], s[w..run]);
  }

  /**
   * When the class run is only whitespace (and not empty), `\s*` gives back its last
   * character, which is all the capture holds; both trim to the empty string.
   */
  lemma PhoneCaptureShort(s: string, c: nat)
    requires c <= |s|
    requires c < SpaceEnd(s, c) == RunEnd(s, c, IsPhoneChar)
    ensures PhoneCapture(s, c, SpaceEnd(s, c)) == Some((SpaceEnd(s, c) - 1, SpaceEnd(s, c)))
    ensures PhoneRun(s, c) == Some([]) && Trim(s[SpaceEnd(s, c) - 1..SpaceEnd(s, c)]) == []
  {
    var w := SpaceEnd(s, c);
    SpaceEndAll(s, c);
    RunEndUnique(s, w, w, IsPhoneChar);
    RunEndUnique(s, w - 1, w, IsPhoneChar);
    assert IsSpace(s[w - 1..w][0]);
    TrimEmpty(s[w - 1..w]);
    TrimEmpty(s[c..w]);
  }

  /** With no class character after the colon, neither rule matches. */
  lemma PhoneCaptureNone(s: string, c: nat)
    requires c <= |s|
    requires RunEnd(s, c, IsPhoneChar) == c
    ensures PhoneCapture(s, c, SpaceEnd(s, c)).None? && PhoneRun(s, c).None?
  {
    SpacesArePhoneChars(s, c);
  }

  /**
   * Whatever `\s*` gives back, the trimmed capture is the reference rule's result,
   * and a capture exists exactly when that rule matches.
   */
  lemma PhoneCaptureTrim(s: string, c: nat)
    requires c <= |s|
    ensures PhoneCapture(s, c, SpaceEnd(s, c)).Some? <==> PhoneRun(s, c).Some?
    ensures PhoneCapture(s, c, SpaceEnd(s, c)).Some? ==>
              var span := PhoneCapture(s, c, SpaceEnd(s, c)).value;
              PhoneRun(s, c).value == Trim(s[span.0..span.1])
  {
    var w := SpaceEnd(s, c);
    var run := RunEnd(s, c, IsPhoneChar);
    SpacesArePhoneChars(s, c);
    if run > w {
      PhoneCaptureLong(s, c);
    } else if w > c {
      PhoneCaptureShort(s, c);
    } else {
      PhoneCaptureNone(s, c);
    }
  }

  lemma PhoneAtRef(s: string, i: nat)
    ensures PhoneAt(s, i).Some? <==> PhoneRefAt(s, i).Some?
    ensures PhoneAt(s, i).Some? ==>
              PhoneRefAt(s, i).value == Trim(s[PhoneAt(s, i).value.0..PhoneAt(s, i).value.1])
  {
    if PhoneColon(s, i).Some? {
      PhoneCaptureTrim(s, PhoneColon(s, i).value);
    }
  }

  /** The literal phone matcher, backtracking included, agrees with the reference rule. */
  lemma PhoneMatchesReference(s: string)
    ensures Phone(s) == PhoneRef(s)
  {
    var at1 := (i: nat) => PhoneAt(s, i);
    var at2 := (i: nat) => PhoneRefAt(s, i);
    forall j | 0 <= j <= |s| ensures at1(j).Some? <==> at2(j).Some? {
      PhoneAtRef(s, j);
    }
    FirstFromSamePosition(|s|, 0, at1, at2);
    var m := FirstFrom(|s|, 0, at1);
    if m.Some? {
      PhoneAtRef(s, m.value.0);
    }
  }

  /** `[+\d\s()-]+` from `x` to `y`: a nonempty run of the class that cannot grow. */
  predicate PhoneRunFrom(s: string, x: nat, y: nat) {
    x < y <= |s| && (forall k :: x <= k < y ==> IsPhoneChar(s[k])) &&
    (y == |s| || !IsPhoneChar(s[y]))
  }

  /** The class cannot start at `x`: the text ends there or a non-class character stands there. */
  predicate NoPhoneAt(s: string, x: nat) {
    x >= |s| || !IsPhoneChar(s[x])
  }

  /**
   * What the backtracking `\s*([+\d\s()-]+)` settles on: the class run from the
   * rightmost start `x` in `c..k` at which the class can match at all.
   */
  lemma {:induction false} PhoneCaptureIff(s: string, c: nat, k: nat, x: nat, y: nat)
    requires c <= k <= |s|
    ensures PhoneCapture(s, c, k) == Some((x, y)) <==>
            c <= x <= k && PhoneRunFrom(s, x, y) && forall x': nat :: x < x' <= k ==> NoPhoneAt(s, x')
    decreases k - c
  {
    var e0 := RunEnd(s, k, IsPhoneChar);
    RunEndAll(s, k, IsPhoneChar);
    if e0 > k {
      assert !NoPhoneAt(s, k);
      assert PhoneRunFrom(s, k, e0);
      if x == k && PhoneRunFrom(s, k, y) {
        RunEndUnique(s, k, y, IsPhoneChar);
      }
    } else {
      assert NoPhoneAt(s, k);
      if k > c {
        PhoneCaptureIff(s, c, k - 1, x, y);
      }
    }
  }

  /**
   * The phone pattern at `i` capturing `s[x..y]`, stated without the scanning
   * functions: `phone`, `\s*:`, whitespace up to `x`, and a class run from `x`
   * that cannot grow, where `x` is the last point of the whitespace run at which
   * the class can start.
   */
  ghost predicate PhoneShape(s: string, i: nat, x: nat, y: nat) {
    LitCI(s, i, "phone") && exists c: nat :: PhoneVia(s, i, c, x, y)
  }

  ghost predicate PhoneVia(s: string, i: nat, c: nat, x: nat, y: nat) {
    ColonAfter(s, i + 5, c) && Spaces(s, c + 1, x) && PhoneRunFrom(s, x, y) &&
    forall x': nat :: x < x' && Spaces(s, c + 1, x') ==> NoPhoneAt(s, x')
  }

  /** A match at `i` has the shape, with the colon the scanning found. */
  lemma PhoneShapeOfAt(s: string, i: nat, x: nat, y: nat)
    requires PhoneAt(s, i) == Some((x, y))
    ensures PhoneShape(s, i, x, y)
  {
    var c := SpaceEnd(s, i + 5);
    SpaceEndAll(s, i + 5);
    var k := SpaceEnd(s, c + 1);
    PhoneCaptureIff(s, c + 1, k, x, y);
    SpacesUpTo(s, c + 1, x);
    forall x': nat | x < x' && Spaces(s, c + 1, x') ensures NoPhoneAt(s, x') {
      SpacesUpTo(s, c + 1, x');
    }
    assert PhoneVia(s, i, c, x, y);
  }

  /** The shape, with its colon at `c`, is what the scanning finds. */
  lemma AtOfPhoneVia(s: string, i: nat, c: nat, x: nat, y: nat)
    requires LitCI(s, i, "phone") && PhoneVia(s, i, c, x, y)
    ensures PhoneAt(s, i) == Some((x, y))
  {
    ColonAfterGreedy(s, i + 5, c);
    var k := SpaceEnd(s, c + 1);
    SpacesUpTo(s, c + 1, x);
    forall x': nat | x < x' <= k ensures NoPhoneAt(s, x') {
      SpacesUpTo(s, c + 1, x');
    }
    PhoneCaptureIff(s, c + 1, k, x, y);
  }

  lemma PhoneAtIff(s: string, i: nat, x: nat, y: nat)
    ensures PhoneAt(s, i) == Some((x, y)) <==> PhoneShape(s, i, x, y)
  {
    if PhoneAt(s, i) == Some((x, y)) {
      PhoneShapeOfAt(s, i, x, y);
    }
    if PhoneShape(s, i, x, y) {
      var c: nat :| PhoneVia(s, i, c, x, y);
      AtOfPhoneVia(s, i, c, x, y);
    }
  }

  /** No phone is stored exactly when no position has the shape of the pattern. */
  lemma PhoneAbsent(s: string)
    ensures Phone(s).None? <==> forall i: nat, x: nat, y: nat :: !PhoneShape(s, i, x, y)
  {
    var at := (i: nat) => PhoneAt(s, i);
    FirstFromLeftmost(|s|, 0, at);
    if Phone(s).None? {
      forall i: nat, x: nat, y: nat ensures !PhoneShape(s, i, x, y) {
        PhoneAtIff(s, i, x, y);
        if i <= |s| {
          assert at(i).None?;
        }
      }
    } else {
      var m := FirstFrom(|s|, 0, at).value;
      PhoneAtIff(s, m.0, m.1.0, m.1.1);
    }
  }

  /** The phone is the trimmed capture of the leftmost match of the pattern. */
  lemma PhoneLeftmost(s: string, i: nat, x: nat, y: nat)
    requires PhoneShape(s, i, x, y)
    requires forall j: nat, x': nat, y': nat :: j < i ==> !PhoneShape(s, j, x', y')
    ensures Phone(s) == Some(Trim(s[x..y]))
  {
    var at := (j: nat) => PhoneAt(s, j);
    PhoneAtIff(s, i, x, y);
    forall k | 0 <= k < i ensures at(k).None? {
      if at(k).Some? {
        PhoneAtIff(s, k, at(k).value.0, at(k).value.1);
      }
    }
    FirstFromIs(|s|, 0, at, i, (x, y));
  }

  // ---------- /service\s*:\s*.+/ig ----------

  /**
   * `\s*.+` after the colon at `c - 1`, where `\s*` holds `s[c..k]`: the end of the
   * greedy `.+` from `k`, or, when that is empty, the same with one character given
   * back by `\s*`.
   */
  function ServiceCapture(s: string, c: nat, k: nat): (r: Option<nat>)
    requires c <= k <= |s|
    ensures r.Some? ==> c < r.value <= |s|
    ensures r.Some? ==> r.value == |s| || IsLineTerminator(s[r.value])
    decreases k - c
  {
    var e := RunEnd(s, k, NotLineTerminator);
    if e > k then Some(e) else if k == c then None else ServiceCapture(s, c, k - 1)
  }

  /** The service pattern at position `i`: the end of the match. */
  function ServiceAt(s: string, i: nat): (r: Option<nat>)
    ensures r.Some? ==> LitCI(s, i, "service") && i + 8 < r.value <= |s|
    ensures r.Some? ==> ':' in s[i..r.value]
  {
    if !LitCI(s, i, "service") then None
    else
      var c := SpaceEnd(s, i + 7);
      if c < |s| && s[c] == ':' then
        match ServiceCapture(s, c + 1, SpaceEnd(s, c + 1))
        case Some(e) =>
          assert s[i..e][c - i] == ':';
          Some(e)
        case None => None
      else None
  }

  /** `.+` from `x` to `e`: a nonempty stretch of one line, ending at the line's end. */
  predicate LineFrom(s: string, x: nat, e: nat) {
    x < e <= |s| && (forall j :: x <= j < e ==> !IsLineTerminator(s[j])) &&
    (e == |s| || IsLineTerminator(s[e]))
  }

  /** `.+` cannot start at `x`: the text ends there or a line terminator stands there. */
  predicate NoLineAt(s: string, x: nat) {
    x >= |s| || IsLineTerminator(s[x])
  }

  /**
   * What the backtracking `\s*.+` settles on: the line stretch from the rightmost
   * start `x` in `c..k` at which `.+` can match at all.
   */
  lemma {:induction false} ServiceCaptureIff(s: string, c: nat, k: nat, e: nat)
    requires c <= k <= |s|
    ensures ServiceCapture(s, c, k) == Some(e) <==>
            exists x: nat :: c <= x <= k && LineFrom(s, x, e) && forall x': nat :: x < x' <= k ==> NoLineAt(s, x')
    decreases k - c
  {
    var e0 := RunEnd(s, k, NotLineTerminator);
    RunEndAll(s, k, NotLineTerminator);
    if e0 > k {
      assert !NoLineAt(s, k);
      assert LineFrom(s, k, e0);
      if LineFrom(s, k, e) {
        RunEndUnique(s, k, e, NotLineTerminator);
      }
    } else {
      assert NoLineAt(s, k);
      if k > c {
        ServiceCaptureIff(s, c, k - 1, e);
      }
    }
  }

  /**
   * The service pattern at `i` ending at `e`, stated without the scanning functions:
   * `service`, `\s*:`, whitespace up to `x`, and `.+` from `x` to the end of its
   * line, where `x` is the last point of the whitespace run at which `.+` can start.
   */
  ghost predicate ServiceShape(s: string, i: nat, e: nat) {
    LitCI(s, i, "service") && exists c: nat, x: nat :: ServiceVia(s, i, c, x, e)
  }

  ghost predicate ServiceVia(s: string, i: nat, c: nat, x: nat, e: nat) {
    ColonAfter(s, i + 7, c) && Spaces(s, c + 1, x) && LineFrom(s, x, e) &&
    forall x': nat :: x < x' && Spaces(s, c + 1, x') ==> NoLineAt(s, x')
  }

  /** A match at `i` has the shape, with the colon and start the scanning found. */
  lemma ServiceShapeOfAt(s: string, i: nat, e: nat)
    requires ServiceAt(s, i) == Some(e)
    ensures ServiceShape(s, i, e)
  {
    var c := SpaceEnd(s, i + 7);
    SpaceEndAll(s, i + 7);
    var k := SpaceEnd(s, c + 1);
    ServiceCaptureIff(s, c + 1, k, e);
    var x: nat :| c + 1 <= x <= k && LineFrom(s, x, e) && forall x': nat :: x < x' <= k ==> NoLineAt(s, x');
    SpacesUpTo(s, c + 1, x);
    forall x': nat | x < x' && Spaces(s, c + 1, x') ensures NoLineAt(s, x') {
      SpacesUpTo(s, c + 1, x');
    }
    assert ServiceVia(s, i, c, x, e);
  }

  /** The shape, with its colon at `c` and its start at `x`, is what the scanning finds. */
  lemma AtOfServiceVia(s: string, i: nat, c: nat, x: nat, e: nat)
    requires LitCI(s, i, "service") && ServiceVia(s, i, c, x, e)
    ensures ServiceAt(s, i) == Some(e)
  {
    ColonAfterGreedy(s, i + 7, c);
    var k := SpaceEnd(s, c + 1);
    SpacesUpTo(s, c + 1, x);
    forall x': nat | x < x' <= k ensures NoLineAt(s, x') {
      SpacesUpTo(s, c + 1, x');
    }
    ServiceCaptureIff(s, c + 1, k, e);
  }

  lemma ServiceAtIff(s: string, i: nat, e: nat)
    ensures ServiceAt(s, i) == Some(e) <==> ServiceShape(s, i, e)
  {
    if ServiceAt(s, i) == Some(e) {
      ServiceShapeOfAt(s, i, e);
    }
    if ServiceShape(s, i, e) {
      var c: nat, x: nat :| ServiceVia(s, i, c, x, e);
      AtOfServiceVia(s, i, c, x, e);
    }
  }


  /**
   * The spans `s.match(/service\s*:\s*.+/ig)` returns when the scan starts at
   * `from`: each search resumes where the previous match ended.
   */
  function ServiceSpans(s: string, from: nat): (r: seq<(nat, nat)>)
    decreases |s| - from
  {
    if from > |s| then []
    else
      var m := FirstFrom(|s|, from, (j: nat) => ServiceAt(s, j));
      if m.None? then []
      else [(m.value.0, m.value.1)] + ServiceSpans(s, m.value.1)
  }

  /** Every span is a match of the service pattern, at or after `from`, and they come in order without overlapping. */
  predicate MatchSpans(s: string, from: nat, r: seq<(nat, nat)>) {
    (forall k :: 0 <= k < |r| ==> from <= r[k].0 < r[k].1 <= |s| && ServiceAt(s, r[k].0) == Some(r[k].1))
    && (forall k, l :: 0 <= k < l < |r| ==> r[k].1 <= r[l].0)
  }

  lemma MatchSpansCons(s: string, from: nat, i: nat, e: nat, rest: seq<(nat, nat)>)
    requires from <= i < e <= |s| && ServiceAt(s, i) == Some(e)
    requires MatchSpans(s, e, rest)
    ensures MatchSpans(s, from, [(i, e)] + rest)
  {
    var r := [(i, e)] + rest;
    forall k | 1 <= k < |r| ensures r[k] == rest[k - 1] {
    }
  }

  lemma {:induction false} ServiceSpansMatch(s: string, from: nat)
    ensures MatchSpans(s, from, ServiceSpans(s, from))
    decreases |s| - from
  {
    if from <= |s| {
      var m := FirstFrom(|s|, from, (j: nat) => ServiceAt(s, j));
      if m.Some? {
        assert ServiceAt(s, m.value.0) == Some(m.value.1);
        ServiceSpansMatch(s, m.value.1);
        MatchSpansCons(s, from, m.value.0, m.value.1, ServiceSpans(s, m.value.1));
      }
    }
  }

  /** Position `j` lies inside one of the spans. */
  predicate Covered(r: seq<(nat, nat)>, j: nat) {
    exists k :: 0 <= k < |r| && r[k].0 <= j < r[k].1
  }

  lemma CoveredCons(sp: (nat, nat), rest: seq<(nat, nat)>, j: nat)
    requires (sp.0 <= j < sp.1) || Covered(rest, j)
    ensures Covered([sp] + rest, j)
  {
    var r := [sp] + rest;
    if sp.0 <= j < sp.1 {
      assert r[0] == sp;
    } else {
      var k :| 0 <= k < |rest| && rest[k].0 <= j < rest[k].1;
      assert r[k + 1] == rest[k];
    }
  }

  /** No match start is skipped by the global scan: each lies inside a span. */
  lemma {:induction false} ServiceSpansComplete(s: string, from: nat, j: nat)
    requires from <= j <= |s| && ServiceAt(s, j).Some?
    ensures Covered(ServiceSpans(s, from), j)
    decreases |s| - from
  {
    var at := (j: nat) => ServiceAt(s, j);
    assert forall j: nat :: at(j) == ServiceAt(s, j);
    FirstFromLeftmost(|s|, from, at);
    var m := FirstFrom(|s|, from, at);
    assert m.Some?;
    var i := m.value.0;
    var e := m.value.1;
    assert ServiceAt(s, i) == Some(e);
    assert ServiceSpans(s, from) == [(i, e)] + ServiceSpans(s, e);
    if e <= j {
      ServiceSpansComplete(s, e, j);
    }
    CoveredCons((i, e), ServiceSpans(s, e), j);
  }

  /** The matched lines, in textual order; each holds the colon after `service`. */
  function ServiceLines(s: string): (r: seq<string>)
    ensures forall k :: 0 <= k < |r| ==> ':' in r[k]
  {
    var spans := ServiceSpans(s, 0);
    ServiceSpansMatch(s, 0);
    seq(|spans|, k requires 0 <= k < |spans| => s[spans[k].0..spans[k].1])
  }

  /** `line.split(":")[1]`: the text between the first and the second colon. */
  function Segment(line: string): (r: string)
    requires ':' in line
    ensures ':' !in r
  {
    Split(line, ':')[1]
  }

  /** A parsed service field: trimmed, free of `|` and of `:`. */
  predicate CleanField(x: string) {
    IsTrimmed(x) && '|' !in x && ':' !in x
  }

  predicate CleanService(v: Service) {
    CleanField(v.title) && CleanField(v.desc) && CleanField(v.price)
  }

  /**
   * The service of one matched line: the first three of the trimmed `|`-pieces of its
   * segment, when there are at least three pieces (at least two `|`).
   */
  function ServiceOfLine(line: string): (r: Option<Service>)
    requires ':' in line
    ensures r.Some? <==> Count(Segment(line), '|') >= 2
  {
    var p := Split(Segment(line), '|');
    if |p| >= 3 then Some(Service(Trim(p[0]), Trim(p[1]), Trim(p[2]))) else None
  }

  /** A trimmed piece free of `|` and `:` is a clean field. */
  lemma TrimClean(x: string)
    requires '|' !in x && ':' !in x
    ensures CleanField(Trim(x))
  {
    TrimInfix(x);
  }

  /** The fields of a parsed service are trimmed and hold neither `|` nor `:`. */
  lemma ServiceOfLineClean(line: string)
    requires ':' in line
    ensures ServiceOfLine(line).Some? ==> CleanService(ServiceOfLine(line).value)
  {
    var p := Split(Segment(line), '|');
    if |p| >= 3 {
      forall k | 0 <= k < 3 ensures '|' !in p[k] && ':' !in p[k] {
        JoinPart(p, '|', k);
      }
      TrimClean(p[0]);
      TrimClean(p[1]);
      TrimClean(p[2]);
    }
  }

  /** The services that `forEach` pushes for `lines`, in order. */
  function ParsedServices(lines: seq<string>): (r: seq<Service>)
    requires forall k :: 0 <= k < |lines| ==> ':' in lines[k]
    ensures |r| <= |lines|
  {
    if lines == [] then []
    else
      var init := ParsedServices(lines[..|lines| - 1]);
      match ServiceOfLine(lines[|lines| - 1])
      case Some(v) => init + [v]
      case None => init
  }

  /**
   * One more line parsed: its service, if it has one, comes after the ones already
   * pushed onto `before`.
   */
  lemma ParsedServicesSnoc(before: seq<Service>, lines: seq<string>, i: nat)
    requires i < |lines|
    requires forall k :: 0 <= k < |lines| ==> ':' in lines[k]
    ensures ':' in lines[i]
    ensures ServiceOfLine(lines[i]).Some? ==>
              before + ParsedServices(lines[..i + 1]) == before + ParsedServices(lines[..i]) + [ServiceOfLine(lines[i]).value]
    ensures ServiceOfLine(lines[i]).None? ==>
              before + ParsedServices(lines[..i + 1]) == before + ParsedServices(lines[..i])
  {
    assert lines[..i + 1][..i] == lines[..i];
    assert lines[..i + 1][i] == lines[i];
    var p := ParsedServices(lines[..i]);
    if ServiceOfLine(lines[i]).Some? {
      assert before + (p + [ServiceOfLine(lines[i]).value]) == before + p + [ServiceOfLine(lines[i]).value];
    }
  }

  lemma {:induction false} ParsedServicesClean(lines: seq<string>)
    requires forall k :: 0 <= k < |lines| ==> ':' in lines[k]
    ensures forall k :: 0 <= k < |ParsedServices(lines)| ==> CleanService(ParsedServices(lines)[k])
  {
    if lines != [] {
      ParsedServicesClean(lines[..|lines| - 1]);
      ServiceOfLineClean(lines[|lines| - 1]);
    }
  }

  /** Parsing distributes over the lines: services come out in the order of their lines. */
  lemma {:induction false} ParsedServicesConcat(a: seq<string>, b: seq<string>)
    requires forall k :: 0 <= k < |a| ==> ':' in a[k]
    requires forall k :: 0 <= k < |b| ==> ':' in b[k]
    ensures ParsedServices(a + b) == ParsedServices(a) + ParsedServices(b)
    decreases |b|
  {
    if b == [] {
      assert a + b == a;
    } else {
      var b' := b[..|b| - 1];
      assert (a + b)[..|a + b| - 1] == a + b';
      assert (a + b)[|a + b| - 1] == b[|b| - 1];
      ParsedServicesConcat(a, b');
      var x := b[|b| - 1];
      assert b[..|b| - 1] == b';
      if ServiceOfLine(x).Some? {
        var v := ServiceOfLine(x).value;
        assert ParsedServices(b) == ParsedServices(b') + [v];
        assert ParsedServices(a) + ParsedServices(b') + [v] == ParsedServices(a) + (ParsedServices(b') + [v]);
      }
    }
  }
}
