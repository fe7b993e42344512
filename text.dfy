/**
 * The few JavaScript string primitives that the directive interpreter relies on:
 * the character classes of its regular expressions, String.prototype.toLowerCase
 * (ASCII part), String.prototype.trim, String.prototype.split on a one-character
 * separator, and the leftmost-position search that RegExp.prototype.exec performs.
 */
module Text {

  datatype Option<+T> = None | Some(value: T) {
    /** The value, or `default` when there is none. */
    function GetOr(default: T): T {
      match this
      case Some(v) => v
      case None => default
    }
  }

  /** JavaScript LineTerminator: the characters that `.` in a regular expression does not match. */
  predicate IsLineTerminator(c: char) {
    c == '\n' || c == '\r' || c == '\U{2028}' || c == '\U{2029}'
  }

  /** JavaScript WhiteSpace or LineTerminator: the class `\s`, and what `trim` removes. */
  predicate IsSpace(c: char) {
    c == '\t' || c == '\U{B}' || c == '\U{C}' || c == ' ' || c == '\U{A0}' || c == '\U{1680}'
    || ('\U{2000}' <= c <= '\U{200A}') || c == '\U{202F}' || c == '\U{205F}' || c == '\U{3000}'
    || c == '\U{FEFF}' || IsLineTerminator(c)
  }

  predicate NotSpace(c: char) { !IsSpace(c) }

  predicate NotLineTerminator(c: char) { !IsLineTerminator(c) }

  /** The class `\w`, whose edges `\b` detects. */
  predicate IsWordChar(c: char) {
    ('a' <= c <= 'z') || ('A' <= c <= 'Z') || ('0' <= c <= '9') || c == '_'
  }

  /** The class `\d` (ASCII digits only). */
  predicate IsDigit(c: char) { '0' <= c <= '9' }

  predicate IsUpper(c: char) { 'A' <= c <= 'Z' }

  /** `\b` at position `j`: exactly one of the two neighbouring characters is a word character. */
  predicate Boundary(s: string, j: nat) {
    (0 < j <= |s| && IsWordChar(s[j - 1])) != (j < |s| && IsWordChar(s[j]))
  }

  function LowerChar(c: char): (d: char)
    ensures !IsUpper(d)
    ensures IsUpper(c) ==> d as int == c as int + 32
    ensures !IsUpper(c) ==> d == c
  {
    if IsUpper(c) then (c as int + 32) as char else c
  }

  /** String.prototype.toLowerCase, restricted to the ASCII letters. */
  function ToLower(s: string): (r: string)
    ensures |r| == |s|
  {
    seq(|s|, i requires 0 <= i < |s| => LowerChar(s[i]))
  }

  /** Lower-casing leaves no ASCII capital. */
  lemma ToLowerNoUpper(s: string)
    ensures forall i :: 0 <= i < |ToLower(s)| ==> !IsUpper(ToLower(s)[i])
  {
  }

  /** The literal `w` occurs in `s` at position `i` (a case-sensitive pattern). */
  predicate Lit(s: string, i: nat, w: string) {
    i + |w| <= |s| && s[i..i + |w|] == w
  }

  /** The lower-case literal `w` occurs in `s` at position `i` under the `i` flag. */
  predicate LitCI(s: string, i: nat, w: string) {
    i + |w| <= |s| && ToLower(s[i..i + |w|]) == w
  }

  /** A case-insensitive literal, character by character. */
  lemma LitCIChars(s: string, i: nat, w: string)
    requires LitCI(s, i, w)
    ensures forall k :: i <= k < i + |w| ==> LowerChar(s[k]) == w[k - i]
  {
    forall k | i <= k < i + |w| ensures LowerChar(s[k]) == w[k - i] {
      assert ToLower(s[i..i + |w|])[k - i] == LowerChar(s[i..i + |w|][k - i]);
    }
  }

  /**
   * The end of the longest run of characters satisfying `p` that starts at `i`:
   * what a greedy `p*` consumes.
   */
  function RunEnd(s: string, i: nat, p: char -> bool): (e: nat)
    requires i <= |s|
    ensures i <= e <= |s|
    ensures e == |s| || !p(s[e])
    decreases |s| - i
  {
    if i < |s| && p(s[i]) then RunEnd(s, i + 1, p) else i
  }

  /** Every character the run consumed satisfies `p`. */
  lemma {:induction false} RunEndAll(s: string, i: nat, p: char -> bool)
    requires i <= |s|
    ensures forall k :: i <= k < RunEnd(s, i, p) ==> p(s[k])
    decreases |s| - i
  {
    if i < |s| && p(s[i]) {
      RunEndAll(s, i + 1, p);
    }
  }

  /** Greedy `\s*` from position `i`. */
  function SpaceEnd(s: string, i: nat): (e: nat)
    requires i <= |s|
    ensures i <= e <= |s|
    ensures e == |s| || !IsSpace(s[e])
  {
    RunEnd(s, i, IsSpace)
  }

  lemma SpaceEndAll(s: string, i: nat)
    requires i <= |s|
    ensures forall k :: i <= k < SpaceEnd(s, i) ==> IsSpace(s[k])
  {
    RunEndAll(s, i, IsSpace);
  }

  /** A run that is delimited on both sides is the greedy one. */
  lemma {:induction false} RunEndUnique(s: string, i: nat, x: nat, p: char -> bool)
    requires i <= x <= |s|
    requires forall k :: i <= k < x ==> p(s[k])
    requires x == |s| || !p(s[x])
    ensures RunEnd(s, i, p) == x
    decreases x - i
  {
    if i < x {
      RunEndUnique(s, i + 1, x, p);
    }
  }

  /** The greedy run reaches past every prefix of characters satisfying `p`. */
  lemma RunEndCovers(s: string, i: nat, x: nat, p: char -> bool)
    requires i <= x <= |s|
    requires forall k :: i <= k < x ==> p(s[k])
    ensures x <= RunEnd(s, i, p)
  {
  }

  /** `s[i..j]` is whitespace only: one of the runs a `\s*` may consume from `i`. */
  predicate Spaces(s: string, i: nat, j: nat) {
    i <= j <= |s| && forall k :: i <= k < j ==> IsSpace(s[k])
  }

  /** A whitespace run followed by a non-whitespace character (or the end) is the greedy one. */
  lemma SpacesThen(s: string, i: nat, j: nat)
    requires Spaces(s, i, j) && (j == |s| || !IsSpace(s[j]))
    ensures SpaceEnd(s, i) == j
  {
    RunEndUnique(s, i, j, IsSpace);
  }

  /** The greedy run is a whitespace run. */
  lemma SpacesToEnd(s: string, i: nat)
    requires i <= |s|
    ensures Spaces(s, i, SpaceEnd(s, i))
  {
    SpaceEndAll(s, i);
  }

  /** The runs `\s*` may consume from `i` are exactly those up to the greedy one. */
  lemma SpacesUpTo(s: string, i: nat, j: nat)
    requires i <= |s|
    ensures Spaces(s, i, j) <==> i <= j <= SpaceEnd(s, i)
  {
    SpaceEndAll(s, i);
    if Spaces(s, i, j) {
      RunEndCovers(s, i, j, IsSpace);
    }
  }

  /** A character whose lower case is a letter is not whitespace. */
  lemma LetterNotSpace(c: char)
    requires 'a' <= LowerChar(c) <= 'z'
    ensures !IsSpace(c)
  {
  }

  /**
   * Leftmost search, as a non-global regular expression scans its start positions:
   * the first `j` in `i..n` at which `at` matches, with what it matched.
   */
  function FirstFrom<T>(n: nat, i: nat, at: nat -> Option<T>): (r: Option<(nat, T)>)
    ensures r.Some? ==> i <= r.value.0 <= n && at(r.value.0) == Some(r.value.1)
    decreases n + 1 - i
  {
    if i > n then None
    else match at(i)
      case Some(v) => Some((i, v))
      case None => FirstFrom(n, i + 1, at)
  }

  /** The position found is the leftmost one, and no position matches when none is found. */
  lemma {:induction false} FirstFromLeftmost<T>(n: nat, i: nat, at: nat -> Option<T>)
    ensures var r := FirstFrom(n, i, at);
            r.Some? ==> forall j :: i <= j < r.value.0 ==> at(j).None?
    ensures FirstFrom(n, i, at).None? ==> forall j :: i <= j <= n ==> at(j).None?
    decreases n + 1 - i
  {
    if i <= n && at(i).None? {
      FirstFromLeftmost(n, i + 1, at);
    }
  }

  /** Two matchers that succeed at the same positions are found at the same position. */
  lemma {:induction false} FirstFromSamePosition<T, U>(n: nat, i: nat, at1: nat -> Option<T>, at2: nat -> Option<U>)
    requires forall j :: i <= j <= n ==> (at1(j).Some? <==> at2(j).Some?)
    ensures FirstFrom(n, i, at1).Some? <==> FirstFrom(n, i, at2).Some?
    ensures FirstFrom(n, i, at1).Some? ==> FirstFrom(n, i, at1).value.0 == FirstFrom(n, i, at2).value.0
    decreases n + 1 - i
  {
    if i <= n && at1(i).None? {
      FirstFromSamePosition(n, i + 1, at1, at2);
    }
  }

  /** A position that matches, with no match before it, is the one the search finds. */
  lemma {:induction false} FirstFromIs<T>(n: nat, i: nat, at: nat -> Option<T>, j: nat, v: T)
    requires i <= j <= n && at(j) == Some(v)
    requires forall k :: i <= k < j ==> at(k).None?
    ensures FirstFrom(n, i, at) == Some((j, v))
    decreases j - i
  {
    if i < j {
      FirstFromIs(n, i + 1, at, j, v);
    }
  }

  /** `RegExp.prototype.test`: some start position in `i..n` matches. */
  function AnyFrom(n: nat, i: nat, at: nat -> bool): bool
    decreases n + 1 - i
  {
    if i > n then false else at(i) || AnyFrom(n, i + 1, at)
  }

  lemma {:induction false} AnyFromIff(n: nat, i: nat, at: nat -> bool)
    ensures AnyFrom(n, i, at) <==> exists j :: i <= j <= n && at(j)
    decreases n + 1 - i
  {
    if i <= n {
      AnyFromIff(n, i + 1, at);
    }
  }

  /** `s.includes(w)`, the test of a pattern made of plain characters only. */
  predicate Contains(s: string, w: string) {
    AnyFrom(|s|, 0, (j: nat) => Lit(s, j, w))
  }

  /** `s.includes(w)` holds exactly when `w` occurs in `s` at some position. */
  lemma ContainsIff(s: string, w: string)
    ensures Contains(s, w) <==> exists j: nat :: Lit(s, j, w)
  {
    var at := (j: nat) => Lit(s, j, w);
    AnyFromIff(|s|, 0, at);
    if exists j: nat :: Lit(s, j, w) {
      var j: nat :| Lit(s, j, w);
      assert at(j);
    }
  }

  /** Trimmed strings neither start nor end with `\s`. */
  predicate IsTrimmed(s: string) {
    s == [] || (!IsSpace(s[0]) && !IsSpace(s[|s| - 1]))
  }

  /**
   * The start of the longest run of `\s` that ends at `j`: scanning back from `j`
   * to the last non-whitespace character.
   */
  function SpaceStart(s: string, j: nat): (b: nat)
    requires j <= |s|
    ensures b <= j
    ensures b == 0 || !IsSpace(s[b - 1])
  {
    if j > 0 && IsSpace(s[j - 1]) then SpaceStart(s, j - 1) else j
  }

  /** Every character the backward run passed over is whitespace. */
  lemma {:induction false} SpaceStartAll(s: string, j: nat)
    requires j <= |s|
    ensures forall k :: SpaceStart(s, j) <= k < j ==> IsSpace(s[k])
  {
    if j > 0 && IsSpace(s[j - 1]) {
      SpaceStartAll(s, j - 1);
    }
  }

  /** A backward run that is delimited on both sides is the one `SpaceStart` finds. */
  lemma {:induction false} SpaceStartUnique(s: string, j: nat, x: nat)
    requires x <= j <= |s|
    requires forall k :: x <= k < j ==> IsSpace(s[k])
    requires x == 0 || !IsSpace(s[x - 1])
    ensures SpaceStart(s, j) == x
  {
    if x < j {
      SpaceStartUnique(s, j - 1, x);
    }
  }

  /** String.prototype.trim: the infix of `s` left once `\s` is removed from both ends. */
  function Trim(s: string): (r: string)
    ensures IsTrimmed(r)
  {
    var a := SpaceEnd(s, 0);
    var b := SpaceStart(s, |s|);
    if b <= a then [] else s[a..b]
  }

  /** `trim` keeps an infix: no character is added. */
  lemma TrimInfix(s: string)
    ensures |Trim(s)| <= |s|
    ensures forall c :: c in Trim(s) ==> c in s
  {
    var a := SpaceEnd(s, 0);
    var b := SpaceStart(s, |s|);
    if a < b {
      forall c | c in s[a..b] ensures c in s {
        var k :| 0 <= k < b - a && s[a..b][k] == c;
        assert s[a + k] == c;
      }
    }
  }

  /** `trim` yields the empty string exactly when `s` is all whitespace. */
  lemma TrimEmpty(s: string)
    ensures Trim(s) == [] <==> forall k :: 0 <= k < |s| ==> IsSpace(s[k])
  {
    var a := SpaceEnd(s, 0);
    var b := SpaceStart(s, |s|);
    SpaceEndAll(s, 0);
    SpaceStartAll(s, |s|);
    if a < |s| {
      assert !IsSpace(s[a]);
      assert a < b;
    }
  }

  lemma SpaceEndAfterSpaces(a: string, b: string)
    requires forall k :: 0 <= k < |a| ==> IsSpace(a[k])
    ensures SpaceEnd(a + b, 0) == |a| + SpaceEnd(b, 0)
  {
    var t := a + b;
    var x := SpaceEnd(b, 0);
    SpaceEndAll(b, 0);
    forall k | 0 <= k < |a| + x ensures IsSpace(t[k]) {
      if k >= |a| {
        assert t[k] == b[k - |a|];
      }
    }
    if |a| + x < |t| {
      assert t[|a| + x] == b[x];
    }
    RunEndUnique(t, 0, |a| + x, IsSpace);
  }

  lemma SpaceStartAfterSpaces(a: string, b: string)
    requires SpaceEnd(b, 0) < |b|
    ensures SpaceStart(a + b, |a + b|) == |a| + SpaceStart(b, |b|)
  {
    var t := a + b;
    var y := SpaceStart(b, |b|);
    SpaceStartAll(b, |b|);
    assert !IsSpace(b[SpaceEnd(b, 0)]);
    assert 0 < y;
    forall k | |a| + y <= k < |t| ensures IsSpace(t[k]) {
      assert t[k] == b[k - |a|];
    }
    assert t[|a| + y - 1] == b[y - 1];
    SpaceStartUnique(t, |t|, |a| + y);
  }

  /** Leading whitespace makes no difference to `trim`. */
  lemma TrimAfterSpaces(a: string, b: string)
    requires forall k :: 0 <= k < |a| ==> IsSpace(a[k])
    ensures Trim(a + b) == Trim(b)
  {
    var t := a + b;
    var x := SpaceEnd(b, 0);
    SpaceEndAfterSpaces(a, b);
    if x < |b| {
      var y := SpaceStart(b, |b|);
      SpaceStartAfterSpaces(a, b);
      SpaceStartAll(b, |b|);
      assert !IsSpace(b[x]);
      assert x < y;
      assert Trim(b) == b[x..y];
      assert Trim(t) == t[|a| + x..|a| + y];
      assert t[|a| + x..|a| + y] == b[x..y];
    } else {
      assert Trim(b) == [];
      assert Trim(t) == [];
    }
  }

  lemma TrimOfTrimmed(s: string)
    requires IsTrimmed(s)
    ensures Trim(s) == s
  {
    if s != [] {
      RunEndUnique(s, 0, 0, IsSpace);
      SpaceStartUnique(s, |s|, |s|);
      assert s[0..|s|] == s;
    }
  }

  lemma TrimIdempotent(s: string)
    ensures Trim(Trim(s)) == Trim(s)
  {
    TrimOfTrimmed(Trim(s));
  }

  /** `trim` removes a whitespace prefix and a whitespace suffix and nothing else. */
  lemma TrimShape(s: string)
    ensures exists i: nat, j: nat :: i <= j && Spaces(s, 0, i) && Spaces(s, j, |s|) && Trim(s) == s[i..j]
  {
    var a := SpaceEnd(s, 0);
    var b := SpaceStart(s, |s|);
    SpaceEndAll(s, 0);
    SpaceStartAll(s, |s|);
    if b <= a {
      assert Spaces(s, 0, a) && Spaces(s, a, |s|) && Trim(s) == s[a..a];
    } else {
      assert Spaces(s, 0, a) && Spaces(s, b, |s|) && Trim(s) == s[a..b];
    }
  }

  /**
   * The prefix and the suffix are the whole of the leading and the trailing
   * whitespace: cutting any whitespace prefix and suffix that leaves a trimmed
   * string gives what `trim` gives.
   */
  lemma TrimUnique(s: string, i: nat, j: nat)
    requires i <= j && Spaces(s, 0, i) && Spaces(s, j, |s|) && IsTrimmed(s[i..j])
    ensures Trim(s) == s[i..j]
  {
    if i == j {
      TrimEmpty(s);
    } else {
      assert s[i] == s[i..j][0] && s[j - 1] == s[i..j][j - i - 1];
      SpacesThen(s, 0, i);
      SpaceStartUnique(s, |s|, j);
    }
  }

  /** The parts of `s` joined back with the separator `c`. */
  function Join(parts: seq<string>, c: char): string
  {
    if parts == [] then []
    else if |parts| == 1 then parts[0]
    else parts[0] + [c] + Join(parts[1..], c)
  }

  /** Every character of a part is a character of the joined string. */
  lemma {:induction false} JoinPart(parts: seq<string>, c: char, k: nat)
    requires k < |parts|
    ensures forall ch :: ch in parts[k] ==> ch in Join(parts, c)
  {
    if |parts| > 1 {
      if k > 0 {
        JoinPart(parts[1..], c, k - 1);
        assert parts[1..][k - 1] == parts[k];
      }
      assert Join(parts, c) == parts[0] + [c] + Join(parts[1..], c);
    }
  }

  function IndexOf(s: string, c: char): (r: nat)
    requires c in s
    ensures r < |s| && s[r] == c && c !in s[..r]
  {
    if s[0] == c then 0
    else
      assert s == [s[0]] + s[1..];
      1 + IndexOf(s[1..], c)
  }

  /** The number of occurrences of `c` in `s`. */
  function Count(s: string, c: char): nat
  {
    if s == [] then 0 else (if s[0] == c then 1 else 0) + Count(s[1..], c)
  }

  lemma {:induction false} CountConcat(a: string, b: string, c: char)
    ensures Count(a + b, c) == Count(a, c) + Count(b, c)
  {
    if a != [] {
      assert (a + b)[1..] == a[1..] + b;
      CountConcat(a[1..], b, c);
    } else {
      assert a + b == b;
    }
  }

  lemma {:induction false} CountAbsent(s: string, c: char)
    requires c !in s
    ensures Count(s, c) == 0
  {
    if s != [] {
      CountAbsent(s[1..], c);
    }
  }

  /** A string is what comes before position `i`, the character there and what comes after. */
  lemma Around(s: string, i: nat)
    requires i < |s|
    ensures s == s[..i] + [s[i]] + s[i + 1..]
  {
    assert s[..i] + [s[i]] == s[..i + 1];
  }

  /**
   * String.prototype.split with a one-character separator: the pieces between
   * consecutive separators, as many as there are separators plus one.
   */
  function Split(s: string, c: char): (r: seq<string>)
    ensures |r| == Count(s, c) + 1
    ensures forall k :: 0 <= k < |r| ==> c !in r[k]
    ensures Join(r, c) == s
    ensures c in s <==> |r| >= 2
    ensures c !in s ==> r == [s]
    decreases |s|
  {
    if c !in s then
      CountAbsent(s, c);
      [s]
    else
      var i := IndexOf(s, c);
      var rest := Split(s[i + 1..], c);
      Around(s, i);
      CountConcat(s[..i] + [c], s[i + 1..], c);
      CountConcat(s[..i], [c], c);
      CountAbsent(s[..i], c);
      [s[..i]] + rest
  }
}
