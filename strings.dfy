/**
 * ASCII character classes and the string primitives the product scripts
 * build on: Python's str.lower / str.strip / str.split / ' '.join, and the
 * character-class steps of the regular expressions they use (`[^\w\s]`,
 * `\s+`, `[\s_-]+`), written as explicit scanners.
 *
 * Characters outside ASCII are treated as neither word characters nor
 * whitespace, and case mapping leaves them unchanged.
 */
module Strings {

  // ---------------------------------------------------------------------
  // Character classes

  /** Python's str.isspace() (and the regex class `\s`) on ASCII. */
  predicate IsSpace(c: char) {
    c == ' ' || c == '\t' || c == '\n' || c == '\U{0B}' || c == '\U{0C}' || c == '\r'
    || ('\U{1C}' <= c <= '\U{1F}')
  }

  predicate IsNonSpace(c: char) { !IsSpace(c) }

  predicate IsUpper(c: char) { 'A' <= c <= 'Z' }

  predicate IsLower(c: char) { 'a' <= c <= 'z' }

  predicate IsDigit(c: char) { '0' <= c <= '9' }

  /** The regex class `\w` on ASCII. */
  predicate IsWordChar(c: char) { IsUpper(c) || IsLower(c) || IsDigit(c) || c == '_' }

  function LowerChar(c: char): (d: char)
    ensures !IsUpper(d)
    ensures IsSpace(d) == IsSpace(c) && IsDigit(d) == IsDigit(c) && IsWordChar(d) == IsWordChar(c)
    ensures !IsUpper(c) ==> d == c
  {
    if IsUpper(c) then (c as int + 32) as char else c
  }

  function UpperChar(c: char): (d: char)
    ensures !IsLower(d)
    ensures IsSpace(d) == IsSpace(c)
    ensures !IsLower(c) ==> d == c
  {
    if IsLower(c) then (c as int - 32) as char else c
  }

  // ---------------------------------------------------------------------
  // Case mapping

  /** str.lower() */
  function Lower(s: string): (r: string)
    ensures |r| == |s|
    ensures forall i :: 0 <= i < |s| ==> r[i] == LowerChar(s[i])
  {
    seq(|s|, i requires 0 <= i < |s| => LowerChar(s[i]))
  }

  lemma LowerAppend(a: string, b: string)
    ensures Lower(a + b) == Lower(a) + Lower(b)
  {
  }

  /** A string with no upper-case letter is its own lower-case form. */
  lemma LowerOfLower(s: string)
    requires forall i :: 0 <= i < |s| ==> !IsUpper(s[i])
    ensures Lower(s) == s
  {
  }

  /** Whether s[i], lower-cased, is `ch` (for patterns matched with re.I). */
  predicate CharAt(s: string, i: int, ch: char) {
    0 <= i < |s| && LowerChar(s[i]) == ch
  }

  /** n spaces. */
  function Spaces(n: nat): (r: string)
    ensures |r| == n && forall i :: 0 <= i < n ==> r[i] == ' '
  {
    seq(n, _ => ' ')
  }

  /** str.capitalize(): first character upper-cased, the rest lower-cased. */
  function Capitalize(w: string): (r: string)
    ensures |r| == |w|
    ensures w != [] ==> r[0] == UpperChar(w[0])
    ensures forall i :: 1 <= i < |w| ==> r[i] == LowerChar(w[i])
  {
    if w == [] then [] else [UpperChar(w[0])] + Lower(w[1..])
  }

  predicate IsLetter(c: char) { IsUpper(c) || IsLower(c) }

  /** str.title() on ASCII: a letter is upper-cased when it follows a non-letter. */
  function Title(s: string): (r: string)
    ensures |r| == |s|
  {
    seq(|s|, i requires 0 <= i < |s| =>
      if i == 0 || !IsLetter(s[i - 1]) then UpperChar(s[i]) else LowerChar(s[i]))
  }

  /** str.replace(a, b) for single characters. */
  function ReplaceChar(s: string, a: char, b: char): (r: string)
    ensures |r| == |s|
    ensures forall i :: 0 <= i < |s| ==> r[i] == if s[i] == a then b else s[i]
  {
    seq(|s|, i requires 0 <= i < |s| => if s[i] == a then b else s[i])
  }

  /** Concatenation regroups freely. */
  lemma AppendAssoc(a: string, b: string, c: string)
    ensures a + (b + c) == (a + b) + c
  {
  }

  // ---------------------------------------------------------------------
  // Stripping

  /** Index of the first character at or after `i` that fails `f`. */
  function SkipWhile(s: string, i: nat, f: char -> bool): (j: nat)
    requires i <= |s|
    ensures i <= j <= |s|
    ensures forall k :: i <= k < j ==> f(s[k])
    ensures j < |s| ==> !f(s[j])
    decreases |s| - i
  {
    if i < |s| && f(s[i]) then SkipWhile(s, i + 1, f) else i
  }

  /** SkipWhile stops at the first index from i whose character fails f. */
  lemma SkipWhileStopsAt(s: string, i: nat, j: nat, f: char -> bool)
    requires i <= j <= |s|
    requires forall m :: i <= m < j ==> f(s[m])
    requires j < |s| ==> !f(s[j])
    ensures SkipWhile(s, i, f) == j
  {
  }

  /** Index just after the last character before `j` that fails `f`. */
  function SkipBackWhile(s: string, j: nat, f: char -> bool): (i: nat)
    requires j <= |s|
    ensures i <= j
    ensures forall k :: i <= k < j ==> f(s[k])
    ensures 0 < i ==> !f(s[i - 1])
  {
    if 0 < j && f(s[j - 1]) then SkipBackWhile(s, j - 1, f) else j
  }

  /** SkipBackWhile stops at the last index before j whose character fails f. */
  lemma SkipBackWhileStopsAt(s: string, i: nat, j: nat, f: char -> bool)
    requires i <= j <= |s|
    requires forall m :: i <= m < j ==> f(s[m])
    requires 0 < i ==> !f(s[i - 1])
    ensures SkipBackWhile(s, j, f) == i
  {
  }

  /** Drops the longest prefix whose characters satisfy `drop`. */
  function TrimLeft(s: string, drop: char -> bool): string {
    s[SkipWhile(s, 0, drop)..]
  }

  /** Drops the longest suffix whose characters satisfy `drop`. */
  function TrimRight(s: string, drop: char -> bool): string {
    s[..SkipBackWhile(s, |s|, drop)]
  }

  /** str.strip(chars): both ends. `Trim(s, IsSpace)` is str.strip(). */
  function Trim(s: string, drop: char -> bool): string
  {
    TrimRight(TrimLeft(s, drop), drop)
  }

  /** What TrimLeft keeps starts with a kept character. */
  lemma TrimLeftStart(s: string, drop: char -> bool)
    ensures TrimLeft(s, drop) == [] || !drop(TrimLeft(s, drop)[0])
  {
  }

  /** What TrimRight keeps ends with a kept character. */
  lemma TrimRightEnd(s: string, drop: char -> bool)
    ensures var r := TrimRight(s, drop); r == [] || !drop(r[|r| - 1])
  {
  }

  /** What TrimLeft removes is a run of dropped characters. */
  lemma TrimLeftDropped(s: string, drop: char -> bool)
    ensures forall i :: 0 <= i < |s| - |TrimLeft(s, drop)| ==> drop(s[i])
  {
  }

  /** What TrimRight removes is a run of dropped characters. */
  lemma TrimRightDropped(s: string, drop: char -> bool)
    ensures forall i :: |TrimRight(s, drop)| <= i < |s| ==> drop(s[i])
  {
  }

  /** A string is the dropped run TrimLeft removes followed by what it keeps. */
  lemma TrimLeftSplit(s: string, drop: char -> bool) returns (pre: string)
    ensures s == pre + TrimLeft(s, drop)
    ensures forall i :: 0 <= i < |pre| ==> drop(pre[i])
  {
    var k := SkipWhile(s, 0, drop);
    pre := s[..k];
    assert s == pre + s[k..];
  }

  /** The tail of a string from a point after which every character is dropped. */
  lemma DroppedTail(l: string, n: nat, drop: char -> bool)
    requires n <= |l| && forall i :: n <= i < |l| ==> drop(l[i])
    ensures forall i :: 0 <= i < |l[n..]| ==> drop(l[n..][i])
  {
    forall i | 0 <= i < |l[n..]| ensures drop(l[n..][i]) {
      assert l[n..][i] == l[n + i];
    }
  }

  /** A string is what TrimRight keeps followed by the dropped run it removes. */
  lemma TrimRightSplit(s: string, drop: char -> bool) returns (post: string)
    ensures s == TrimRight(s, drop) + post
    ensures forall i :: 0 <= i < |post| ==> drop(post[i])
  {
    var k := SkipBackWhile(s, |s|, drop);
    post := s[k..];
    assert s == s[..k] + post;
    DroppedTail(s, k, drop);
  }

  /**
   * A string is its trimmed core between two runs of dropped characters,
   * `pre` and `post`.
   */
  lemma TrimSplit(s: string, drop: char -> bool) returns (pre: string, post: string)
    ensures s == pre + (Trim(s, drop) + post)
    ensures forall i :: 0 <= i < |pre| ==> drop(pre[i])
    ensures forall i :: 0 <= i < |post| ==> drop(post[i])
  {
    pre := TrimLeftSplit(s, drop);
    post := TrimRightSplit(TrimLeft(s, drop), drop);
  }

  /** A leading run of dropped characters makes no difference to TrimLeft. */
  lemma TrimLeftRun(a: string, b: string, drop: char -> bool)
    requires forall i :: 0 <= i < |a| ==> drop(a[i])
    ensures TrimLeft(a + b, drop) == TrimLeft(b, drop)
  {
    var s, k := a + b, SkipWhile(b, 0, drop);
    forall m | 0 <= m < |a| + k ensures drop(s[m]) {
      if m >= |a| {
        assert s[m] == b[m - |a|];
      }
    }
    if |a| + k < |s| {
      assert s[|a| + k] == b[k];
    }
    SkipWhileStopsAt(s, 0, |a| + k, drop);
    assert s[|a| + k..] == b[k..];
  }

  /** TrimLeft drops one character at a time. */
  lemma TrimLeftUnfold(s: string, drop: char -> bool)
    ensures TrimLeft(s, drop) == if s != [] && drop(s[0]) then TrimLeft(s[1..], drop) else s
  {
    if s != [] && drop(s[0]) {
      assert s == [s[0]] + s[1..];
      TrimLeftRun([s[0]], s[1..], drop);
    } else {
      SkipWhileStopsAt(s, 0, 0, drop);
    }
  }

  /** TrimRight drops one character at a time. */
  lemma TrimRightUnfold(s: string, drop: char -> bool)
    ensures TrimRight(s, drop) ==
      if s != [] && drop(s[|s| - 1]) then TrimRight(s[..|s| - 1], drop) else s
  {
    if s != [] && drop(s[|s| - 1]) {
      var t := s[..|s| - 1];
      var i := SkipBackWhile(t, |t|, drop);
      forall m | i <= m < |s| ensures drop(s[m]) {
        if m < |t| {
          assert s[m] == t[m];
        }
      }
      if 0 < i {
        assert s[i - 1] == t[i - 1];
      }
      SkipBackWhileStopsAt(s, i, |s|, drop);
      assert s[..i] == t[..i];
    } else {
      SkipBackWhileStopsAt(s, |s|, |s|, drop);
    }
  }

  lemma TrimNoop(s: string, drop: char -> bool)
    requires s == [] || (!drop(s[0]) && !drop(s[|s| - 1]))
    ensures Trim(s, drop) == s
  {
    SkipWhileStopsAt(s, 0, 0, drop);
    assert TrimLeft(s, drop) == s;
    SkipBackWhileStopsAt(s, |s|, |s|, drop);
  }

  lemma TrimLeftAppend(a: string, b: string, drop: char -> bool)
    requires TrimLeft(a, drop) != []
    ensures TrimLeft(a + b, drop) == TrimLeft(a, drop) + b
  {
    var k := SkipWhile(a, 0, drop);
    SkipWhileExtend(a, b, 0, drop);
    assert (a + b)[k..] == a[k..] + b;
  }

  lemma TrimRightAppend(a: string, b: string, drop: char -> bool)
    requires b != [] && !drop(b[|b| - 1])
    ensures TrimRight(a + b, drop) == a + b
  {
    var s := a + b;
    assert s[|s| - 1] == b[|b| - 1];
    SkipBackWhileStopsAt(s, |s|, |s|, drop);
  }

  /** TrimRight of a join stops inside the second part when the first ends with a kept character. */
  lemma TrimRightJoin(a: string, b: string, drop: char -> bool)
    requires a != [] && !drop(a[|a| - 1])
    ensures TrimRight(a + b, drop) == a + TrimRight(b, drop)
  {
    var post := TrimRightSplit(b, drop);
    var x := a + TrimRight(b, drop);
    assert a + b == x + post;
    TrimRightEnd(b, drop);
    assert !drop(x[|x| - 1]);
    forall m | |x| <= m < |x + post| ensures drop((x + post)[m]) {
      assert (x + post)[m] == post[m - |x|];
    }
    SkipBackWhileStopsAt(x + post, |x|, |x + post|, drop);
    assert (x + post)[..|x|] == x;
  }

  lemma TrimLeftAllDropped(s: string, drop: char -> bool)
    requires forall i :: 0 <= i < |s| ==> drop(s[i])
    ensures TrimLeft(s, drop) == []
  {
    SkipWhileStopsAt(s, 0, |s|, drop);
  }

  lemma TrimLeftEmpty(s: string, drop: char -> bool)
    requires TrimLeft(s, drop) == []
    ensures forall i :: 0 <= i < |s| ==> drop(s[i])
  {
  }

  // ---------------------------------------------------------------------
  // Character-class substitutions

  /** `re.sub(r'[^K]', '', s)`: keeps the characters satisfying `keep`. */
  function Retain(s: string, keep: char -> bool): string
  {
    if s == [] then []
    else (if keep(s[0]) then [s[0]] else []) + Retain(s[1..], keep)
  }

  /** What Retain keeps comes from the input and satisfies `keep`. */
  lemma RetainChars(s: string, keep: char -> bool)
    ensures forall c :: c in Retain(s, keep) ==> c in s && keep(c)
  {
    if s != [] {
      RetainChars(s[1..], keep);
    }
  }

  lemma RetainAll(s: string, keep: char -> bool)
    requires forall i :: 0 <= i < |s| ==> keep(s[i])
    ensures Retain(s, keep) == s
  {
  }

  lemma RetainAppend(a: string, b: string, keep: char -> bool)
    ensures Retain(a + b, keep) == Retain(a, keep) + Retain(b, keep)
  {
    if a != [] {
      assert (a + b)[0] == a[0];
      assert (a + b)[1..] == a[1..] + b;
      RetainAppend(a[1..], b, keep);
    } else {
      assert a + b == b;
    }
  }

  /**
   * `re.sub(r'S+', rep, s)`: every maximal run of characters satisfying
   * `sep` becomes the single character `rep`. A separator contributes `rep`
   * exactly when it ends its run.
   */
  function Collapse(s: string, sep: char -> bool, rep: char): string
  {
    if s == [] then []
    else if sep(s[0]) && |s| > 1 && sep(s[1]) then Collapse(s[1..], sep, rep)
    else if sep(s[0]) then [rep] + Collapse(s[1..], sep, rep)
    else [s[0]] + Collapse(s[1..], sep, rep)
  }

  /** Collapsing keeps only `rep` and the input's non-separator characters. */
  lemma CollapseChars(s: string, sep: char -> bool, rep: char)
    ensures forall c :: c in Collapse(s, sep, rep) ==> c == rep || (c in s && !sep(c))
  {
    if s != [] {
      CollapseChars(s[1..], sep, rep);
      assert forall c :: c in s[1..] ==> c in s;
    }
  }

  /** Collapsing empties only the empty string and keeps its first character's kind. */
  lemma CollapseFirst(s: string, sep: char -> bool, rep: char)
    ensures var r := Collapse(s, sep, rep);
      && (s == [] <==> r == [])
      && (s != [] && sep(s[0]) ==> r[0] == rep)
      && (s != [] && !sep(s[0]) ==> r[0] == s[0])
  {
    if s != [] {
      CollapseFirst(s[1..], sep, rep);
    }
  }

  /** After collapsing, no two separators stand side by side. */
  lemma {:induction false} CollapseSingle(s: string, sep: char -> bool, rep: char)
    ensures var r := Collapse(s, sep, rep);
      forall i :: 0 <= i < |r| - 1 ==> !(sep(r[i]) && sep(r[i + 1]))
  {
    if s != [] {
      CollapseSingle(s[1..], sep, rep);
      CollapseFirst(s[1..], sep, rep);
      var u := Collapse(s[1..], sep, rep);
      if !(sep(s[0]) && |s| > 1 && sep(s[1])) {
        var r := Collapse(s, sep, rep);
        assert r == [r[0]] + u;
        forall i | 0 <= i < |r| - 1 ensures !(sep(r[i]) && sep(r[i + 1])) {
          if i == 0 {
            if sep(s[0]) {
              assert r[1] == u[0] == s[1];
            }
          } else {
            assert r[i] == u[i - 1] && r[i + 1] == u[i];
          }
        }
      }
    }
  }

  /** The facts about a collapsed string that its users need, together. */
  lemma CollapseShape(s: string, sep: char -> bool, rep: char)
    ensures var r := Collapse(s, sep, rep);
      && (forall c :: c in r ==> c == rep || (c in s && !sep(c)))
      && (s == [] <==> r == [])
      && (s != [] && sep(s[0]) ==> r[0] == rep)
      && (s != [] && !sep(s[0]) ==> r[0] == s[0])
      && (forall i :: 0 <= i < |r| - 1 ==> !(sep(r[i]) && sep(r[i + 1])))
  {
    CollapseChars(s, sep, rep);
    CollapseFirst(s, sep, rep);
    CollapseSingle(s, sep, rep);
  }

  /** Collapsing changes nothing when every separator is a lone `rep`. */
  lemma {:induction false} CollapseNoop(s: string, sep: char -> bool, rep: char)
    requires forall i :: 0 <= i < |s| && sep(s[i]) ==> s[i] == rep
    requires forall i :: 0 <= i < |s| - 1 ==> !(sep(s[i]) && sep(s[i + 1]))
    ensures Collapse(s, sep, rep) == s
    decreases |s|
  {
    if s != [] {
      var t := s[1..];
      forall i | 0 <= i < |t| && sep(t[i]) ensures t[i] == rep {
        assert t[i] == s[i + 1];
      }
      forall i | 0 <= i < |t| - 1 ensures !(sep(t[i]) && sep(t[i + 1])) {
        assert t[i] == s[i + 1] && t[i + 1] == s[i + 2];
      }
      CollapseNoop(t, sep, rep);
      if |s| > 1 {
        assert !(sep(s[0]) && sep(s[1]));
      }
      assert s == [s[0]] + t;
    }
  }

  /** A leading run of separators collapses into one `rep`. */
  lemma {:induction false} CollapseLeadingRun(a: string, b: string, sep: char -> bool, rep: char)
    requires a != [] && forall i :: 0 <= i < |a| ==> sep(a[i])
    ensures Collapse(a + b, sep, rep) == [rep] + Collapse(TrimLeft(b, sep), sep, rep)
    decreases |a| + |b|
  {
    var s := a + b;
    assert s[0] == a[0] && s[1..] == a[1..] + b;
    if |a| > 1 {
      assert s[1] == a[1];
      CollapseLeadingRun(a[1..], b, sep, rep);
    } else if b != [] && sep(b[0]) {
      assert s[1] == b[0] && s[1..] == b;
      assert b == b[..1] + b[1..];
      CollapseLeadingRun(b[..1], b[1..], sep, rep);
      TrimLeftUnfold(b, sep);
    } else {
      assert s[1..] == b;
      TrimLeftUnfold(b, sep);
    }
  }

  /** A trailing run of separators collapses into at most one `rep`. */
  lemma {:induction false} CollapseTrailingRun(a: string, b: string, sep: char -> bool, rep: char)
    requires b != [] && forall i :: 0 <= i < |b| ==> sep(b[i])
    ensures Collapse(a + b, sep, rep) ==
      if a != [] && sep(a[|a| - 1]) then Collapse(a, sep, rep) else Collapse(a, sep, rep) + [rep]
  {
    if a == [] {
      assert a + b == b;
      CollapseLeadingRun(b, [], sep, rep);
      assert b + [] == b;
    } else {
      assert (a + b)[1..] == a[1..] + b;
      assert (a + b)[0] == a[0];
      CollapseTrailingRun(a[1..], b, sep, rep);
      if |a| == 1 {
        assert (a + b)[1] == b[0];
      } else {
        assert (a + b)[1] == a[1];
        assert a[1..][|a| - 2] == a[|a| - 1];
      }
    }
  }

  // ---------------------------------------------------------------------
  // Prefixes, substrings, scanning

  predicate StartsWith(s: string, prefix: string) {
    |prefix| <= |s| && s[..|prefix|] == prefix
  }

  predicate OccursAt(s: string, k: string, i: int) {
    0 <= i <= |s| - |k| && s[i..i + |k|] == k
  }

  /** Python's `k in s` for strings. */
  function Contains(s: string, k: string): (r: bool)
    ensures r <==> exists i :: OccursAt(s, k, i)
  {
    if |k| > |s| then false
    else if s[..|k|] == k then assert OccursAt(s, k, 0); true
    else
      var r := Contains(s[1..], k);
      assert r ==> exists i :: OccursAt(s, k, i) by {
        if r {
          var i :| OccursAt(s[1..], k, i);
          assert s[i + 1..i + 1 + |k|] == s[1..][i..i + |k|];
          assert OccursAt(s, k, i + 1);
        }
      }
      assert (exists i :: OccursAt(s, k, i)) ==> r by {
        if exists i :: OccursAt(s, k, i) {
          var i :| OccursAt(s, k, i);
          assert i != 0;
          assert s[1..][i - 1..i - 1 + |k|] == s[i..i + |k|];
          assert OccursAt(s[1..], k, i - 1);
        }
      }
      r
  }

  /** A character put in front shifts a scan by one. */
  lemma SkipWhileCons(c: char, s: string, k: nat, f: char -> bool)
    requires k <= |s|
    ensures SkipWhile([c] + s, k + 1, f) == SkipWhile(s, k, f) + 1
  {
    var t, j := [c] + s, SkipWhile(s, k, f);
    forall m | k + 1 <= m < j + 1 ensures f(t[m]) {
      assert t[m] == s[m - 1];
    }
    if j + 1 < |t| {
      assert t[j + 1] == s[j];
    }
    SkipWhileStopsAt(t, k + 1, j + 1, f);
  }

  /** A scan that stops inside `s` stops at the same place in `s + t`. */
  lemma SkipWhileExtend(s: string, t: string, i: nat, f: char -> bool)
    requires i <= |s| && SkipWhile(s, i, f) < |s|
    ensures SkipWhile(s + t, i, f) == SkipWhile(s, i, f)
    decreases |s| - i
  {
    if f(s[i]) {
      SkipWhileExtend(s, t, i + 1, f);
    }
  }

  // ---------------------------------------------------------------------
  // str.split() and ' '.join

  /** The longest prefix of `s` containing no whitespace. */
  function LeadingWord(s: string): (w: string)
    ensures |w| <= |s| && w == s[..|w|]
    ensures forall i :: 0 <= i < |w| ==> !IsSpace(w[i])
    ensures |w| < |s| ==> IsSpace(s[|w|])
  {
    if s != [] && !IsSpace(s[0]) then [s[0]] + LeadingWord(s[1..]) else []
  }

  /** A non-empty string containing no whitespace. */
  predicate IsWord(w: string) {
    w != [] && forall i :: 0 <= i < |w| ==> !IsSpace(w[i])
  }

  /** str.split() with no argument: the maximal runs of non-whitespace. */
  function Words(s: string): (ws: seq<string>)
    ensures forall k :: 0 <= k < |ws| ==> IsWord(ws[k])
    decreases |s|
  {
    if s == [] then []
    else if IsSpace(s[0]) then Words(s[1..])
    else
      var w := LeadingWord(s);
      [w] + Words(s[|w|..])
  }

  /** `sep.join(ws)` for a one-character separator. */
  function Join(ws: seq<string>, sep: char): (r: string)
  {
    if ws == [] then []
    else if |ws| == 1 then ws[0]
    else ws[0] + [sep] + Join(ws[1..], sep)
  }

  /** A string that str.split() would give back as the same words joined by one space. */
  predicate IsSpaced(s: string) {
    && (s == [] || (!IsSpace(s[0]) && !IsSpace(s[|s| - 1])))
    && (forall i :: 0 <= i < |s| && IsSpace(s[i]) ==> s[i] == ' ')
    && (forall i :: 0 <= i < |s| - 1 ==> !(s[i] == ' ' && s[i + 1] == ' '))
  }

  /** Joining words with one space gives no leading, trailing or doubled whitespace. */
  lemma {:induction false} JoinIsSpaced(ws: seq<string>)
    requires forall k :: 0 <= k < |ws| ==> IsWord(ws[k])
    ensures IsSpaced(Join(ws, ' '))
    ensures ws != [] ==> Join(ws, ' ') != []
  {
    if |ws| > 1 {
      JoinIsSpaced(ws[1..]);
      var j := Join(ws[1..], ' ');
      var r := ws[0] + [' '] + j;
      assert ws[1..][0] == ws[1];
      forall i | 0 <= i < |r| - 1
        ensures !(r[i] == ' ' && r[i + 1] == ' ')
      {
        if i < |ws[0]| {
          assert r[i] == ws[0][i];
        } else if i == |ws[0]| {
          assert r[i + 1] == j[0];
        } else {
          assert r[i] == j[i - |ws[0]| - 1] && r[i + 1] == j[i - |ws[0]|];
        }
      }
      forall i | 0 <= i < |r| && IsSpace(r[i]) ensures r[i] == ' ' {
        if i > |ws[0]| {
          assert r[i] == j[i - |ws[0]| - 1];
        }
      }
      assert r[|r| - 1] == j[|j| - 1];
    }
  }

  /** str.split() undoes ' '.join on words: the two are inverse. */
  lemma {:induction false} WordsOfJoin(ws: seq<string>)
    requires forall k :: 0 <= k < |ws| ==> IsWord(ws[k])
    ensures Words(Join(ws, ' ')) == ws
  {
    if ws == [] {
    } else {
      var w := ws[0];
      var j := Join(ws[1..], ' ');
      var rest := if |ws| == 1 then [] else [' '] + j;
      assert Join(ws, ' ') == w + rest;
      LeadingWordOf(w, rest);
      assert (w + rest)[|w|..] == rest;
      if |ws| > 1 {
        assert rest[1..] == j;
        WordsOfJoin(ws[1..]);
      }
    }
  }

  lemma LeadingWordOf(w: string, rest: string)
    requires IsWord(w)
    requires rest == [] || IsSpace(rest[0])
    ensures LeadingWord(w + rest) == w
    ensures Words(w + rest) == [w] + Words(rest)
  {
    LeadingWordPrefix(w, rest);
  }

  lemma LeadingWordPrefix(w: string, rest: string)
    requires forall i :: 0 <= i < |w| ==> !IsSpace(w[i])
    requires rest == [] || IsSpace(rest[0])
    ensures LeadingWord(w + rest) == w
  {
    if w != [] {
      assert (w + rest)[1..] == w[1..] + rest;
      LeadingWordPrefix(w[1..], rest);
    }
  }

  // ---------------------------------------------------------------------
  // Decimal numerals (Python's str(int) for non-negative integers)

  function DigitChar(d: nat): (c: char)
    requires d < 10
    ensures IsDigit(c) && c as int - '0' as int == d
  {
    ('0' as int + d) as char
  }

  function Decimal(n: nat): (s: string)
    ensures s != []
    ensures forall i :: 0 <= i < |s| ==> IsDigit(s[i])
  {
    if n < 10 then [DigitChar(n)] else Decimal(n / 10) + [DigitChar(n % 10)]
  }

  /** int(s) for a string of decimal digits. */
  function ParseDecimal(s: string): nat
    requires forall i :: 0 <= i < |s| ==> IsDigit(s[i])
  {
    if s == [] then 0
    else
      assert IsDigit(s[|s| - 1]);
      10 * ParseDecimal(s[..|s| - 1]) + (s[|s| - 1] as int - '0' as int)
  }

  /** Parsing a rendered numeral gives the number back. */
  lemma {:induction false} DecimalRoundTrip(n: nat)
    ensures ParseDecimal(Decimal(n)) == n
  {
    if n >= 10 {
      var s := Decimal(n);
      assert s[..|s| - 1] == Decimal(n / 10);
      DecimalRoundTrip(n / 10);
    }
  }

  lemma DecimalInjective(m: nat, n: nat)
    requires Decimal(m) == Decimal(n)
    ensures m == n
  {
    DecimalRoundTrip(m);
    DecimalRoundTrip(n);
  }
}
