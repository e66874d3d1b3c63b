/**
 * fix_product_name in scripts/cleanup_products.py: the brand prefix, product
 * codes and size tokens are handled, whitespace is normalised and words are
 * capitalised except for a stoplist. The brand-prefix step is shared with
 * process_product in scripts/fetch_products.py.
 */
module NameFix {
  import opened Strings
  import opened Products

  // ---------------------------------------------------------------------
  // Brand prefix

  /** The characters `str.strip(' -')` removes. */
  predicate IsBlankOrHyphen(c: char) { c == ' ' || c == '-' }

  /** Whether the name starts with the brand, ignoring case. */
  predicate HasBrandPrefix(name: string, brand: string) {
    brand != [] && StartsWith(Lower(name), Lower(brand))
  }

  /**
   * `name[len(brand):].strip(' -')` when the name starts with a non-empty
   * brand, ignoring case; the name itself otherwise.
   */
  function StripBrandPrefix(name: string, brand: string): string {
    if HasBrandPrefix(name, brand) then Trim(name[|brand|..], IsBlankOrHyphen) else name
  }

  /**
   * A name made of the brand (in any case), spaces and hyphens, and a rest
   * loses exactly the brand and the spaces and hyphens.
   */
  lemma StripBrandPrefixOf(brand: string, written: string, sep: string, rest: string)
    requires brand != [] && Lower(written) == Lower(brand)
    requires forall i :: 0 <= i < |sep| ==> IsBlankOrHyphen(sep[i])
    requires rest == [] || (!IsBlankOrHyphen(rest[0]) && !IsBlankOrHyphen(rest[|rest| - 1]))
    ensures StripBrandPrefix(written + sep + rest, brand) == rest
  {
    var name := written + sep + rest;
    LowerAppend(written, sep + rest);
    assert name == written + (sep + rest);
    assert |written| == |brand|;
    assert Lower(name)[..|brand|] == Lower(brand);
    assert HasBrandPrefix(name, brand);
    assert name[|brand|..] == sep + rest;
    TrimLeftRun(sep, rest, IsBlankOrHyphen);
    TrimNoop(rest, IsBlankOrHyphen);
    TrimRightOfUntrimmed(sep + rest, rest, IsBlankOrHyphen);
  }

  /** Trimming a string whose left trim is already a trimmed string. */
  lemma TrimRightOfUntrimmed(s: string, t: string, drop: char -> bool)
    requires TrimLeft(s, drop) == t && Trim(t, drop) == t
    ensures Trim(s, drop) == t
  {
    assert TrimLeft(t, drop) == t;
  }

  // ---------------------------------------------------------------------
  // Product codes: `re.sub(r'\s*\d{10,}', '', name)`

  /** Where a `\s*\d{10,}` match starting at p ends, or -1. */
  function CodeEnd(s: string, p: nat): (e: int)
    requires p <= |s|
    ensures e == -1 || p < e <= |s|
  {
    var i := SkipWhile(s, p, IsSpace);
    var j := SkipWhile(s, i, IsDigit);
    if j - i >= 10 then j else -1
  }

  /** The scan of re.sub from position p: matches are dropped, other characters copied. */
  function RemoveCodesFrom(s: string, p: nat): string
    requires p <= |s|
    decreases |s| - p
  {
    if p == |s| then []
    else
      var e := CodeEnd(s, p);
      if e > p then RemoveCodesFrom(s, e) else [s[p]] + RemoveCodesFrom(s, p + 1)
  }

  function RemoveCodes(s: string): string {
    RemoveCodesFrom(s, 0)
  }

  /** The length of the run of digits starting at k. */
  function DigitRun(s: string, k: nat): nat
    requires k <= |s|
  {
    SkipWhile(s, k, IsDigit) - k
  }

  /** No run of ten or more digits: no product code is left. */
  predicate NoCode(s: string) {
    forall k :: 0 <= k <= |s| ==> DigitRun(s, k) < 10
  }

  lemma DigitRunCons(c: char, s: string, k: nat)
    requires k <= |s|
    ensures DigitRun([c] + s, k + 1) == DigitRun(s, k)
    ensures DigitRun([c] + s, 0) == if IsDigit(c) then 1 + DigitRun(s, 0) else 0
  {
    var t := [c] + s;
    SkipWhileCons(c, s, k, IsDigit);
    if IsDigit(c) {
      SkipWhileCons(c, s, 0, IsDigit);
      assert SkipWhile(t, 0, IsDigit) == SkipWhile(t, 1, IsDigit);
    } else {
      SkipWhileStopsAt(t, 0, 0, IsDigit);
    }
  }

  /**
   * The scan from p leaves no code behind, and the digits it starts with
   * are at most the digit run of the input at p.
   */
  lemma {:induction false} RemoveCodesFromNoCode(s: string, p: nat)
    requires p <= |s|
    ensures NoCode(RemoveCodesFrom(s, p))
    ensures DigitRun(RemoveCodesFrom(s, p), 0) <= if p < |s| && IsDigit(s[p]) then DigitRun(s, p) else 0
    decreases |s| - p
  {
    var r := RemoveCodesFrom(s, p);
    if p < |s| {
      var e := CodeEnd(s, p);
      if e > p {
        RemoveCodesFromNoCode(s, e);
        var j := SkipWhile(s, SkipWhile(s, p, IsSpace), IsDigit);
        assert e == j;
      } else {
        RemoveCodesFromNoCode(s, p + 1);
        var rest := RemoveCodesFrom(s, p + 1);
        assert r == [s[p]] + rest;
        forall k | 0 <= k <= |r| ensures DigitRun(r, k) < 10 {
          if k > 0 {
            DigitRunCons(s[p], rest, k - 1);
          } else {
            DigitRunCons(s[p], rest, 0);
            if IsDigit(s[p]) {
              DigitRunNext(s, p);
            }
          }
        }
        DigitRunCons(s[p], rest, 0);
        if IsDigit(s[p]) {
          DigitRunNext(s, p);
        }
      }
    }
  }

  /** Inside a run of digits the run ahead is one shorter; one shorter than ten when no code starts. */
  lemma DigitRunNext(s: string, p: nat)
    requires p < |s| && IsDigit(s[p]) && CodeEnd(s, p) == -1
    ensures DigitRun(s, p) < 10
    ensures p + 1 < |s| && IsDigit(s[p + 1]) ==> DigitRun(s, p + 1) == DigitRun(s, p) - 1
  {
    SkipWhileStopsAt(s, p, p, IsSpace);
    var j := SkipWhile(s, p, IsDigit);
    SkipWhileStopsAt(s, p + 1, j, IsDigit);
  }

  /** No product code survives removal. */
  lemma RemoveCodesNoCode(s: string)
    ensures NoCode(RemoveCodes(s))
  {
    RemoveCodesFromNoCode(s, 0);
  }

  // ---------------------------------------------------------------------
  // Size tokens: `re.sub(r'\s*\d+\s*(g|gm|ml|l|kg)\s*(\(\d+\))?', '', name, flags=re.I)`

  /**
   * End of the unit alternative chosen at k, or -1. Python tries the
   * alternatives in order and keeps the first that matches, because the
   * rest of the pattern always matches; as written `g` comes before `gm`,
   * so `gm` is never chosen. With `gmFirst` the two are swapped.
   */
  function SizeUnitEnd(s: string, k: nat, gmFirst: bool): (q: int)
    requires k <= |s|
    ensures q == -1 || k < q <= |s|
  {
    if gmFirst && CharAt(s, k, 'g') && CharAt(s, k + 1, 'm') then k + 2
    else if CharAt(s, k, 'g') then k + 1
    else if CharAt(s, k, 'm') && CharAt(s, k + 1, 'l') then k + 2
    else if CharAt(s, k, 'l') then k + 1
    else if CharAt(s, k, 'k') && CharAt(s, k + 1, 'g') then k + 2
    else -1
  }

  /** End of the optional `(\(\d+\))?` at r: past the `)` when it matches, r otherwise. */
  function ParenEnd(s: string, r: nat): (e: nat)
    requires r <= |s|
    ensures r <= e <= |s|
  {
    if r < |s| && s[r] == '(' then
      var d := SkipWhile(s, r + 1, IsDigit);
      if d > r + 1 && d < |s| && s[d] == ')' then d + 1 else r
    else r
  }

  /** Where a size-token match starting at p ends, or -1. */
  function SizeEnd(s: string, p: nat, gmFirst: bool): (e: int)
    requires p <= |s|
    ensures e == -1 || p < e <= |s|
  {
    var i := SkipWhile(s, p, IsSpace);
    if i == |s| || !IsDigit(s[i]) then -1
    else
      var k := SkipWhile(s, SkipWhile(s, i, IsDigit), IsSpace);
      var q := SizeUnitEnd(s, k, gmFirst);
      if q < 0 then -1 else ParenEnd(s, SkipWhile(s, q, IsSpace))
  }

  function RemoveSizesFrom(s: string, p: nat, gmFirst: bool): string
    requires p <= |s|
    decreases |s| - p
  {
    if p == |s| then []
    else
      var e := SizeEnd(s, p, gmFirst);
      if e > p then RemoveSizesFrom(s, e, gmFirst) else [s[p]] + RemoveSizesFrom(s, p + 1, gmFirst)
  }

  /** The size removal as written, with `g` tried before `gm`. */
  function RemoveSizesAsWritten(s: string): string {
    RemoveSizesFrom(s, 0, false)
  }

  /** The size removal as evidently intended: `gm` is tried before `g`. */
  function RemoveSizes(s: string): string {
    RemoveSizesFrom(s, 0, true)
  }

  /** The unit words of the size pattern. */
  predicate IsSizeUnit(u: string) {
    u in ["g", "gm", "ml", "l", "kg"]
  }

  /** A text without digits holds no size token. */
  lemma {:induction false} RemoveSizesNoDigits(s: string, p: nat, gmFirst: bool)
    requires p <= |s| && forall i :: 0 <= i < |s| ==> !IsDigit(s[i])
    ensures RemoveSizesFrom(s, p, gmFirst) == s[p..]
    decreases |s| - p
  {
    if p < |s| {
      RemoveSizesNoDigits(s, p + 1, gmFirst);
      assert s[p..] == [s[p]] + s[p + 1..];
    }
  }

  /** The scan copies a character where no size token starts. */
  lemma RemoveSizesCopy(s: string, p: nat, gmFirst: bool)
    requires p < |s| && SizeEnd(s, p, gmFirst) == -1
    ensures RemoveSizesFrom(s, p, gmFirst) == [s[p]] + RemoveSizesFrom(s, p + 1, gmFirst)
  {
  }

  /** The scan drops a size token where one starts. */
  lemma RemoveSizesSkip(s: string, p: nat, gmFirst: bool)
    requires p < |s| && SizeEnd(s, p, gmFirst) > p
    ensures RemoveSizesFrom(s, p, gmFirst) == RemoveSizesFrom(s, SizeEnd(s, p, gmFirst), gmFirst)
  {
  }

  /** Before a digit-free text that does not end in whitespace, no size token starts at p. */
  lemma NoSizeInBase(base: string, x: string, p: nat, gmFirst: bool)
    requires p < |base|
    requires forall i :: 0 <= i < |base| ==> !IsDigit(base[i])
    requires !IsSpace(base[|base| - 1])
    ensures SizeEnd(base + x, p, gmFirst) == -1
  {
    var i := SkipWhile(base, p, IsSpace);
    assert i < |base|;
    SkipWhileExtend(base, x, p, IsSpace);
    assert (base + x)[i] == base[i];
  }

  /** Where no size token starts anywhere in s[p..n], that stretch is copied. */
  lemma {:induction false} RemoveSizesCopiesRun(s: string, p: nat, n: nat, gmFirst: bool)
    requires p <= n <= |s|
    requires forall i :: p <= i < n ==> SizeEnd(s, i, gmFirst) == -1
    ensures RemoveSizesFrom(s, p, gmFirst) == s[p..n] + RemoveSizesFrom(s, n, gmFirst)
    decreases n - p
  {
    if p < n {
      assert s[p..n] == [s[p]] + s[p + 1..n];
      RemoveSizesCopy(s, p, gmFirst);
      RemoveSizesCopiesRun(s, p + 1, n, gmFirst);
      AppendAssoc([s[p]], s[p + 1..n], RemoveSizesFrom(s, n, gmFirst));
    }
  }

  /**
   * Before a size descriptor, a digit-free text not ending in whitespace is
   * copied unchanged.
   */
  lemma RemoveSizesCopiesBase(base: string, x: string, gmFirst: bool)
    requires forall i :: 0 <= i < |base| ==> !IsDigit(base[i])
    requires base == [] || !IsSpace(base[|base| - 1])
    ensures RemoveSizesFrom(base + x, 0, gmFirst) == base + RemoveSizesFrom(base + x, |base|, gmFirst)
  {
    forall i | 0 <= i < |base| ensures SizeEnd(base + x, i, gmFirst) == -1 {
      NoSizeInBase(base, x, i, gmFirst);
    }
    RemoveSizesCopiesRun(base + x, 0, |base|, gmFirst);
    assert (base + x)[0..|base|] == base;
  }

  /** Where a descriptor `spaces, count, unit` starts, the size pattern matches up to `unit`. */
  lemma DescriptorSizeEnd(s: string, p: nat, p1: nat, p2: nat, gmFirst: bool)
    requires p <= p1 < p2 < |s|
    requires forall m :: p <= m < p1 ==> s[m] == ' '
    requires forall m :: p1 <= m < p2 ==> IsDigit(s[m])
    requires !IsSpace(s[p2]) && !IsDigit(s[p2])
    ensures SizeEnd(s, p, gmFirst) ==
      var q := SizeUnitEnd(s, p2, gmFirst);
      if q < 0 then -1 else ParenEnd(s, SkipWhile(s, q, IsSpace))
  {
    SkipWhileStopsAt(s, p, p1, IsSpace);
    SkipWhileStopsAt(s, p1, p2, IsDigit);
    SkipWhileStopsAt(s, p2, p2, IsSpace);
  }

  /**
   * A unit word at the end of s ends the unit alternative at the end of s,
   * except `gm` as written, where the alternative stops after the `g`.
   */
  lemma UnitAtEnd(s: string, k: nat, u: string, gmFirst: bool)
    requires k + |u| == |s| && IsSizeUnit(u)
    requires forall m :: k <= m < |s| ==> LowerChar(s[m]) == u[m - k]
    ensures SizeUnitEnd(s, k, gmFirst) == if u == "gm" && !gmFirst then k + 1 else |s|
  {
    assert CharAt(s, k, u[0]);
    if |u| == 2 {
      assert CharAt(s, k + 1, u[1]);
    }
  }

  /** The string `base` followed by spaces, a count and a unit word. */
  function Sized(base: string, gap: nat, count: string, unit: string): string {
    base + (Spaces(gap) + count + unit)
  }

  /** The parts of a sized name, character by character. */
  lemma SizedChars(base: string, gap: nat, count: string, unit: string)
    requires forall i :: 0 <= i < |count| ==> IsDigit(count[i])
    ensures var s := Sized(base, gap, count, unit);
      var p1 := |base| + gap;
      var k := p1 + |count|;
      && |s| == k + |unit|
      && (forall m :: |base| <= m < p1 ==> s[m] == ' ')
      && (forall m :: p1 <= m < k ==> IsDigit(s[m]))
      && (forall m :: k <= m < |s| ==> s[m] == unit[m - k])
  {
  }

  /**
   * Spaces from p, digits from p1 and a unit word from k to the end: the
   * size pattern reaches the end of the chosen unit alternative.
   */
  lemma DescriptorEnd(s: string, p: nat, p1: nat, k: nat, u: string, gmFirst: bool)
    requires p <= p1 < k && k + |u| == |s| && IsSizeUnit(u)
    requires forall m :: p <= m < p1 ==> s[m] == ' '
    requires forall m :: p1 <= m < k ==> IsDigit(s[m])
    requires forall m :: k <= m < |s| ==> LowerChar(s[m]) == u[m - k]
    ensures SizeEnd(s, p, gmFirst) == if u == "gm" && !gmFirst then |s| - 1 else |s|
  {
    assert !IsSpace(s[k]) && !IsDigit(s[k]) by {
      assert LowerChar(s[k]) == u[0];
    }
    DescriptorSizeEnd(s, p, p1, k, gmFirst);
    UnitAtEnd(s, k, u, gmFirst);
    if u == "gm" && !gmFirst {
      assert LowerChar(s[k + 1]) == 'm';
      SkipWhileStopsAt(s, k + 1, k + 1, IsSpace);
    } else {
      SkipWhileStopsAt(s, |s|, |s|, IsSpace);
    }
  }

  /** Where the descriptor starts, the size pattern reaches the end of the chosen unit. */
  lemma SizedEnd(base: string, gap: nat, count: string, unit: string, gmFirst: bool)
    requires count != [] && forall i :: 0 <= i < |count| ==> IsDigit(count[i])
    requires IsSizeUnit(Lower(unit))
    ensures var s := Sized(base, gap, count, unit);
      SizeEnd(s, |base|, gmFirst) == if Lower(unit) == "gm" && !gmFirst then |s| - 1 else |s|
  {
    var s := Sized(base, gap, count, unit);
    var k := |base| + gap + |count|;
    var u := Lower(unit);
    SizedChars(base, gap, count, unit);
    forall m | k <= m < |s| ensures LowerChar(s[m]) == u[m - k] {
      assert s[m] == unit[m - k];
    }
    DescriptorEnd(s, |base|, |base| + gap, k, u, gmFirst);
  }

  /**
   * As evidently intended, a size descriptor at the end of a digit-free
   * name is removed entirely, whatever its unit.
   */
  lemma RemoveSizesOfSized(base: string, gap: nat, count: string, unit: string)
    requires forall i :: 0 <= i < |base| ==> !IsDigit(base[i])
    requires base == [] || !IsSpace(base[|base| - 1])
    requires count != [] && forall i :: 0 <= i < |count| ==> IsDigit(count[i])
    requires IsSizeUnit(Lower(unit))
    ensures RemoveSizes(Sized(base, gap, count, unit)) == base
  {
    var s := Sized(base, gap, count, unit);
    RemoveSizesCopiesBase(base, Spaces(gap) + count + unit, true);
    SizedEnd(base, gap, count, unit, true);
    assert base + [] == base;
  }

  /**
   * As written, a size descriptor in `gm` loses only its `g`: the `m` (in
   * its original case) stays behind, so "Chips 100gm" becomes "Chipsm".
   */
  lemma RemoveSizesAsWrittenLeavesM(base: string, gap: nat, count: string, unit: string)
    requires forall i :: 0 <= i < |base| ==> !IsDigit(base[i])
    requires base == [] || !IsSpace(base[|base| - 1])
    requires count != [] && forall i :: 0 <= i < |count| ==> IsDigit(count[i])
    requires Lower(unit) == "gm"
    ensures RemoveSizesAsWritten(Sized(base, gap, count, unit)) == base + [unit[1]]
  {
    var s := Sized(base, gap, count, unit);
    SizedLast(base, gap, count, unit);
    TrailingM(s);
    SizedEnd(base, gap, count, unit, false);
    RemoveSizesSkip(s, |base|, false);
    RemoveSizesCopiesBase(base, Spaces(gap) + count + unit, false);
  }

  lemma SizedLast(base: string, gap: nat, count: string, unit: string)
    requires unit != []
    ensures var s := Sized(base, gap, count, unit); s[|s| - 1] == unit[|unit| - 1]
  {
  }

  /** A final `m` is copied: no size token starts at it. */
  lemma TrailingM(s: string)
    requires s != [] && LowerChar(s[|s| - 1]) == 'm'
    ensures RemoveSizesFrom(s, |s| - 1, false) == [s[|s| - 1]]
  {
    SkipWhileStopsAt(s, |s| - 1, |s| - 1, IsSpace);
    RemoveSizesCopy(s, |s| - 1, false);
  }

  /** The smallest such name shows the discrepancy: "1gm" keeps its "m". */
  lemma OneGmExample()
    ensures RemoveSizesAsWritten("1gm") == "m"
    ensures RemoveSizes("1gm") == ""
  {
    assert Lower("gm") == "gm";
    assert Sized("", 0, "1", "gm") == "1gm";
    RemoveSizesAsWrittenLeavesM("", 0, "1", "gm");
    RemoveSizesOfSized("", 0, "1", "gm");
  }

  // ---------------------------------------------------------------------
  // Capitalisation

  /** The words kept in lower case. */
  const StopWords: seq<string> := ["and", "or", "the", "of", "in"]

  /** `w.capitalize() if w.lower() not in [...] else w.lower()` */
  function CaseWord(w: string): string {
    if Lower(w) in StopWords then Lower(w) else Capitalize(w)
  }

  /** First character not a lower-case letter, the rest not upper-case letters. */
  predicate IsCapitalized(w: string) {
    w != [] && !IsLower(w[0]) && forall i :: 1 <= i < |w| ==> !IsUpper(w[i])
  }

  /** A word as the capitalisation leaves it: a lower-case stop word or a capitalised word. */
  predicate IsCasedWord(w: string) {
    IsWord(w) && (w in StopWords || (Lower(w) !in StopWords && IsCapitalized(w)))
  }

  lemma LowerCapitalize(w: string)
    ensures Lower(Capitalize(w)) == Lower(w)
  {
  }

  /** A cased word is a cased form of the word: the same letters, ignoring case. */
  lemma CaseWordShape(w: string)
    requires IsWord(w)
    ensures IsCasedWord(CaseWord(w)) && Lower(CaseWord(w)) == Lower(w)
  {
    LowerCapitalize(w);
    var r := CaseWord(w);
    if Lower(w) in StopWords {
      LowerOfLowerCase(w);
    }
  }

  lemma LowerOfLowerCase(w: string)
    ensures Lower(Lower(w)) == Lower(w)
  {
    LowerOfLower(Lower(w));
  }

  /** Casing a cased word changes nothing. */
  lemma CaseWordIdempotent(w: string)
    ensures CaseWord(CaseWord(w)) == CaseWord(w)
  {
    LowerCapitalize(w);
    LowerOfLowerCase(w);
    if Lower(w) !in StopWords {
      CapitalizeIdempotent(w);
    }
  }

  lemma CapitalizeIdempotent(w: string)
    ensures Capitalize(Capitalize(w)) == Capitalize(w)
  {
    var c := Capitalize(w);
    var cc := Capitalize(c);
    if w != [] {
      assert cc[0] == c[0];
      assert forall i :: 1 <= i < |w| ==> cc[i] == c[i];
    }
  }

  function CaseWords(ws: seq<string>): (r: seq<string>)
    ensures |r| == |ws| && forall k :: 0 <= k < |ws| ==> r[k] == CaseWord(ws[k])
  {
    seq(|ws|, k requires 0 <= k < |ws| => CaseWord(ws[k]))
  }

  /** `' '.join(... for w in name.split())` */
  function TitleName(s: string): string {
    Join(CaseWords(Words(s)), ' ')
  }

  /**
   * The capitalised name is single-spaced and trimmed, and its words are
   * the words of the input, each a lower-case stop word or capitalised.
   */
  lemma TitleNameShape(s: string)
    ensures var r := TitleName(s);
      && IsSpaced(r)
      && |Words(r)| == |Words(s)|
      && forall k :: 0 <= k < |Words(s)| ==> IsCasedWord(Words(r)[k]) && Lower(Words(r)[k]) == Lower(Words(s)[k])
  {
    var ws := Words(s);
    var cs := CaseWords(ws);
    forall k | 0 <= k < |ws| ensures IsCasedWord(cs[k]) && Lower(cs[k]) == Lower(ws[k]) {
      CaseWordShape(ws[k]);
    }
    JoinIsSpaced(cs);
    WordsOfJoin(cs);
  }

  /** Capitalising twice changes nothing. */
  lemma TitleNameIdempotent(s: string)
    ensures TitleName(TitleName(s)) == TitleName(s)
  {
    var cs := CaseWords(Words(s));
    forall k | 0 <= k < |cs| ensures IsWord(cs[k]) {
      CaseWordShape(Words(s)[k]);
    }
    WordsOfJoin(cs);
    forall k | 0 <= k < |cs| ensures CaseWord(cs[k]) == cs[k] {
      CaseWordIdempotent(Words(s)[k]);
    }
    assert CaseWords(cs) == cs;
  }

  // ---------------------------------------------------------------------
  // The whole rewrite

  /** The brand step: a name starting with the brand keeps one copy of it in front. */
  function Rebrand(name: string, brand: string): string {
    if HasBrandPrefix(name, brand) then Trim(brand + " " + StripBrandPrefix(name, brand), IsSpace) else name
  }

  /**
   * The name before capitalisation: brand step, code removal, size removal
   * (as written when `gmFirst` is false), whitespace runs collapsed and the
   * ends stripped.
   */
  function CleanName(name: string, brand: string, gmFirst: bool): string {
    var noSizes := RemoveSizesFrom(RemoveCodes(Rebrand(name, brand)), 0, gmFirst);
    Trim(Collapse(noSizes, IsSpace, ' '), IsSpace)
  }

  /** fix_product_name's new name, as written. */
  function FixName(name: string, brand: string): string {
    TitleName(CleanName(name, brand, false))
  }

  /** fix_product_name's new name with the size removal as evidently intended. */
  function FixNameIntended(name: string, brand: string): string {
    TitleName(CleanName(name, brand, true))
  }

  /**
   * fix_product_name(product): only the name changes, and the new name is
   * trimmed, single-spaced, and made of lower-case stop words and
   * capitalised words.
   */
  function FixProductName(p: Product): (r: Product)
    ensures r == p.(name := r.name)
    ensures IsSpaced(r.name)
    ensures forall k :: 0 <= k < |Words(r.name)| ==> IsCasedWord(Words(r.name)[k])
  {
    TitleNameShape(CleanName(p.name, p.brand, false));
    p.(name := FixName(p.name, p.brand))
  }

  /** A text without digits holds no product code. */
  lemma DigitFreeNoCode(s: string)
    requires forall i :: 0 <= i < |s| ==> !IsDigit(s[i])
    ensures NoCode(s)
  {
    forall k | 0 <= k <= |s| ensures DigitRun(s, k) < 10 {
      SkipWhileStopsAt(s, k, k, IsDigit);
    }
  }

  /** Where the text holds no product code, the scan from p copies the rest. */
  lemma {:induction false} RemoveCodesFromKeeps(s: string, p: nat)
    requires p <= |s| && NoCode(s)
    ensures RemoveCodesFrom(s, p) == s[p..]
    decreases |s| - p
  {
    if p < |s| {
      var i := SkipWhile(s, p, IsSpace);
      assert DigitRun(s, i) < 10;
      RemoveCodesFromKeeps(s, p + 1);
      assert s[p..] == [s[p]] + s[p + 1..];
    }
  }

  /** Code removal leaves a text without product codes unchanged. */
  lemma RemoveCodesKeeps(s: string)
    requires NoCode(s)
    ensures RemoveCodes(s) == s
  {
    RemoveCodesFromKeeps(s, 0);
  }

  /** A code on its own, after any spaces, is removed entirely. */
  lemma RemoveCodesOfCode(gap: nat, code: string)
    requires |code| >= 10 && forall i :: 0 <= i < |code| ==> IsDigit(code[i])
    ensures RemoveCodes(Spaces(gap) + code) == []
  {
    var s := Spaces(gap) + code;
    assert forall m :: 0 <= m < gap ==> s[m] == ' ';
    assert forall m :: gap <= m < |s| ==> IsDigit(s[m]) by {
      forall m | gap <= m < |s| ensures IsDigit(s[m]) {
        assert s[m] == code[m - gap];
      }
    }
    SkipWhileStopsAt(s, 0, gap, IsSpace);
    SkipWhileStopsAt(s, gap, |s|, IsDigit);
    assert CodeEnd(s, 0) == |s|;
    assert RemoveCodesFrom(s, 0) == RemoveCodesFrom(s, |s|) == [];
  }

  /**
   * A name that is already single-spaced, has no digits and does not start
   * with the brand keeps its words: only their case changes.
   */
  lemma FixNameOfPlain(name: string, brand: string)
    requires IsSpaced(name) && !HasBrandPrefix(name, brand)
    requires forall i :: 0 <= i < |name| ==> !IsDigit(name[i])
    ensures FixName(name, brand) == TitleName(name)
  {
    DigitFreeNoCode(name);
    RemoveCodesKeeps(name);
    RemoveSizesNoDigits(name, 0, false);
    assert name[0..] == name;
    CollapseNoop(name, IsSpace, ' ');
    TrimNoop(name, IsSpace);
  }

  /** The pipeline as written turns "1gm" into "M"; as intended, into "". */
  lemma OneGmName()
    ensures FixName("1gm", "") == "M"
    ensures FixNameIntended("1gm", "") == ""
  {
    OneGmCleaned();
    TitleOfM();
    assert Words("") == [];
  }

  /** Before capitalisation "1gm" is "m" as written and "" as intended. */
  lemma OneGmCleaned()
    ensures CleanName("1gm", "", false) == "m"
    ensures CleanName("1gm", "", true) == ""
  {
    OneGmExample();
    OneGmNoCode();
    assert Rebrand("1gm", "") == "1gm";
    CollapseNoop("m", IsSpace, ' ');
    TrimNoop("m", IsSpace);
    assert Collapse("", IsSpace, ' ') == "";
    assert Trim("", IsSpace) == "";
  }

  lemma OneGmNoCode()
    ensures RemoveCodes("1gm") == "1gm"
  {
    var s := "1gm";
    forall k | 0 <= k <= |s| ensures DigitRun(s, k) < 10 {
      assert SkipWhile(s, k, IsDigit) <= |s|;
    }
    RemoveCodesKeeps(s);
  }

  lemma TitleOfM()
    ensures TitleName("m") == "M"
  {
    assert Join(["m"], ' ') == "m";
    WordsOfJoin(["m"]);
    assert CaseWord("m") == "M";
  }
}
