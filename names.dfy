/**
 * The duplicate-detection key of a product name: normalize_name in
 * scripts/cleanup_products.py. The name is lower-cased and stripped, a
 * size or pack descriptor and everything after it is cut off, characters
 * other than word characters and whitespace are dropped, and whitespace
 * runs become one space.
 */
module Names {
  import opened Strings

  /**
   * End of the unit-or-pack token `(g|gm|ml|l|kg|pack|pcs?|x\s*\d+)` that
   * starts at k, or -1 when none does. The token is followed by `.*`, so a
   * longer alternative (`gm`, `pcs`, more digits) matches exactly when the
   * shorter one does; the end returned is that of the shortest one.
   */
  function PackUnitEnd(s: string, k: nat): (q: int)
    requires k <= |s|
    ensures q == -1 || k < q <= |s|
  {
    if CharAt(s, k, 'g') || CharAt(s, k, 'l') then k + 1
    else if (CharAt(s, k, 'm') && CharAt(s, k + 1, 'l'))
         || (CharAt(s, k, 'k') && CharAt(s, k + 1, 'g'))
         || (CharAt(s, k, 'p') && CharAt(s, k + 1, 'c')) then k + 2
    else if CharAt(s, k, 'p') && CharAt(s, k + 1, 'a') && CharAt(s, k + 2, 'c') && CharAt(s, k + 3, 'k') then k + 4
    else if CharAt(s, k, 'x') then
      var d := SkipWhile(s, k + 1, IsSpace);
      if d < |s| && IsDigit(s[d]) then d + 1 else -1
    else -1
  }

  /**
   * `.*$` can match from q: `.` does not match a newline and `$` matches at
   * the end or just before a final newline.
   */
  predicate TailOk(s: string, q: nat) {
    forall m :: q <= m < |s| && s[m] == '\n' ==> m == |s| - 1
  }

  /** `\s*\d+\s*(unit).*$` matches starting at position p. */
  predicate SizeSuffixAt(s: string, p: nat)
    requires p <= |s|
  {
    var i := SkipWhile(s, p, IsSpace);
    && i < |s| && IsDigit(s[i])
    && var k := SkipWhile(s, SkipWhile(s, i, IsDigit), IsSpace);
       var q := PackUnitEnd(s, k);
       q >= 0 && TailOk(s, q)
  }

  /** The leftmost position at or after p where the size pattern matches, or |s|. */
  function FirstSizeSuffix(s: string, p: nat): (r: nat)
    requires p <= |s|
    ensures p <= r <= |s|
    ensures r < |s| ==> SizeSuffixAt(s, r)
    ensures forall m :: p <= m < r ==> !SizeSuffixAt(s, m)
    decreases |s| - p
  {
    if p == |s| || SizeSuffixAt(s, p) then p else FirstSizeSuffix(s, p + 1)
  }

  /**
   * `re.sub(r'\s*\d+\s*(g|gm|ml|l|kg|pack|pcs?|x\s*\d+).*$', '', s, flags=re.I)`:
   * the first match runs to the end of the string (or to a final newline,
   * which stays), so at most one match is removed.
   */
  function StripSizeSuffix(s: string): (r: string)
  {
    var p := FirstSizeSuffix(s, 0);
    if p == |s| then s
    else s[..p] + (if s[|s| - 1] == '\n' then "\n" else "")
  }

  predicate IsWordOrSpace(c: char) { IsWordChar(c) || IsSpace(c) }

  /** A key: lower-case word characters and single spaces only. */
  predicate IsKey(k: string) {
    && (forall c :: c in k ==> c == ' ' || (IsWordChar(c) && !IsUpper(c)))
    && (forall i :: 0 <= i < |k| - 1 ==> !(k[i] == ' ' && k[i + 1] == ' '))
  }

  /** Stripping a suffix keeps a lower-case string lower-case. */
  lemma StripKeepsLowerCase(s: string)
    requires forall i :: 0 <= i < |s| ==> !IsUpper(s[i])
    ensures forall c :: c in StripSizeSuffix(s) ==> !IsUpper(c)
  {
    var p := FirstSizeSuffix(s, 0);
    if p < |s| {
      assert forall i :: 0 <= i < p ==> s[..p][i] == s[i];
    }
  }

  /** normalize_name(name) */
  function NormalizeName(name: string): (key: string)
    ensures IsKey(key)
  {
    var lowered := Lower(Trim(name, IsSpace));
    var cut := StripSizeSuffix(lowered);
    var kept := Retain(cut, IsWordOrSpace);
    var key := Collapse(kept, IsSpace, ' ');
    StripKeepsLowerCase(lowered);
    RetainChars(cut, IsWordOrSpace);
    CollapseShape(kept, IsSpace, ' ');
    key
  }

  // ---------------------------------------------------------------------
  // A size descriptor appended to a name does not change its key.

  /** The unit and pack words of the pattern (the `x<digits>` multiplier aside). */
  predicate IsUnitWord(u: string) {
    u in ["g", "gm", "ml", "l", "kg", "pack", "pc", "pcs"]
  }

  /** Up to |b|, `b + x` has a letter exactly where `b` has it, when x starts with a space or a digit. */
  lemma JoinCharAt(b: string, x: string, i: int)
    requires 0 <= i <= |b|
    requires x != [] && (x[0] == ' ' || IsDigit(x[0]))
    ensures forall ch :: 'a' <= ch <= 'z' ==> CharAt(b + x, i, ch) == CharAt(b, i, ch)
  {
    if i == |b| {
      assert (b + x)[i] == x[0];
    } else {
      assert (b + x)[i] == b[i];
    }
  }

  /** The unit scan at k < |b| cannot use `x` when x starts with a space or a digit. */
  lemma PackUnitEndExtend(b: string, x: string, k: nat)
    requires k < |b|
    requires var c := b[|b| - 1]; !IsSpace(c) && LowerChar(c) != 'x'
    requires x != [] && (x[0] == ' ' || IsDigit(x[0]))
    requires PackUnitEnd(b + x, k) >= 0
    ensures PackUnitEnd(b, k) == PackUnitEnd(b + x, k)
  {
    var s := b + x;
    JoinCharAt(b, x, k);
    JoinCharAt(b, x, k + 1);
    if k + 2 <= |b| {
      JoinCharAt(b, x, k + 2);
    }
    if k + 3 <= |b| {
      JoinCharAt(b, x, k + 3);
    }
    if CharAt(s, k, 'x') && !(CharAt(s, k, 'g') || CharAt(s, k, 'l')) {
      assert k + 1 < |b|;
      var d := SkipWhile(b, k + 1, IsSpace);
      assert d < |b|;
      SkipWhileExtend(b, x, k + 1, IsSpace);
    }
  }

  /**
   * When `b` ends in a character that is not whitespace, a digit or `x`, and
   * `x` starts with a space or a digit and holds no newline, a size pattern
   * matching at a position of `b` in `b + x` already matches in `b`.
   */
  lemma SizeSuffixAtExtend(b: string, x: string, m: nat)
    requires m < |b|
    requires var c := b[|b| - 1]; !IsSpace(c) && !IsDigit(c) && LowerChar(c) != 'x'
    requires x != [] && (x[0] == ' ' || IsDigit(x[0]))
    requires forall i :: 0 <= i < |x| ==> x[i] != '\n'
    requires SizeSuffixAt(b + x, m)
    ensures SizeSuffixAt(b, m)
  {
    var s := b + x;
    var i := SkipWhile(b, m, IsSpace);
    assert i < |b|;
    SkipWhileExtend(b, x, m, IsSpace);
    assert s[i] == b[i];
    var j := SkipWhile(b, i, IsDigit);
    assert j < |b|;
    SkipWhileExtend(b, x, i, IsDigit);
    var k := SkipWhile(b, j, IsSpace);
    assert k < |b|;
    SkipWhileExtend(b, x, j, IsSpace);
    PackUnitEndExtend(b, x, k);
    var q := PackUnitEnd(b, k);
    assert s[|s| - 1] == x[|x| - 1];
    forall n | q <= n < |b| && b[n] == '\n' ensures n == |b| - 1 {
      assert s[n] == b[n];
    }
  }

  /** Where the size pattern first matches in a name followed by a size descriptor. */
  lemma FirstSizeSuffixAtJoint(b: string, x: string)
    requires b != [] && forall i :: 0 <= i < |b| ==> !IsUpper(b[i])
    requires var c := b[|b| - 1]; !IsSpace(c) && !IsDigit(c) && c != 'x'
    requires FirstSizeSuffix(b, 0) == |b|
    requires x != [] && (x[0] == ' ' || IsDigit(x[0]))
    requires forall i :: 0 <= i < |x| ==> x[i] != '\n'
    requires SizeSuffixAt(b + x, |b|)
    ensures FirstSizeSuffix(b + x, 0) == |b|
  {
    assert LowerChar(b[|b| - 1]) == b[|b| - 1];
    forall m | 0 <= m < |b| ensures !SizeSuffixAt(b + x, m) {
      if SizeSuffixAt(b + x, m) {
        SizeSuffixAtExtend(b, x, m);
      }
    }
  }

  /**
   * The multiplier `x\s*\d+` up to its first digit: an `x`, spaces, one
   * digit. Any further digits match the `.*` after it just as well, so in a
   * descriptor they belong to the tail.
   */
  predicate IsMultiplier(u: string) {
    && |u| >= 2 && u[0] == 'x' && IsDigit(u[|u| - 1])
    && forall i :: 1 <= i < |u| - 1 ==> u[i] == ' '
  }

  /** A lower-case unit-or-pack token of the pattern. */
  predicate IsPackToken(u: string) {
    IsUnitWord(u) || IsMultiplier(u)
  }

  /**
   * A size descriptor after a name: spaces, a count, spaces, a
   * unit-or-pack token, a tail.
   */
  function Descriptor(gap: nat, count: string, gap2: nat, unit: string, tail: string): string {
    Spaces(gap) + count + Spaces(gap2) + unit + tail
  }

  lemma LowerDescriptor(base: string, gap: nat, count: string, gap2: nat, unit: string, tail: string)
    requires forall i :: 0 <= i < |count| ==> IsDigit(count[i])
    ensures Lower(base + Descriptor(gap, count, gap2, unit, tail))
         == Lower(base) + Descriptor(gap, count, gap2, Lower(unit), Lower(tail))
  {
    var sp, sp2 := Spaces(gap), Spaces(gap2);
    LowerOfLower(sp);
    LowerOfLower(count);
    LowerOfLower(sp2);
    LowerAppend(sp, count);
    LowerAppend(sp + count, sp2);
    LowerAppend(sp + count + sp2, unit);
    LowerAppend(sp + count + sp2 + unit, tail);
    LowerAppend(base, Descriptor(gap, count, gap2, unit, tail));
  }

  lemma SizeSuffixAtIntro(s: string, p: nat, i: nat, k: nat)
    requires p <= i < |s| && SkipWhile(s, p, IsSpace) == i && IsDigit(s[i])
    requires k == SkipWhile(s, SkipWhile(s, i, IsDigit), IsSpace)
    requires PackUnitEnd(s, k) >= 0 && TailOk(s, PackUnitEnd(s, k))
    ensures SizeSuffixAt(s, p)
  {
  }

  /** A unit word at k ends a unit token. */
  lemma UnitWordEnds(t: string, k: nat, u: string)
    requires IsUnitWord(u) && k + |u| <= |t| && t[k..k + |u|] == u
    ensures k < PackUnitEnd(t, k) <= k + |u|
  {
    assert t[k] == u[0];
    assert LowerChar(t[k]) == t[k];
    if u == "ml" || u == "kg" || u == "pc" || u == "pcs" {
      assert t[k + 1] == u[1];
      assert LowerChar(t[k + 1]) == t[k + 1];
    } else if u == "pack" {
      assert t[k + 1] == u[1] && t[k + 2] == u[2] && t[k + 3] == u[3];
      assert LowerChar(t[k + 1]) == t[k + 1];
      assert LowerChar(t[k + 2]) == t[k + 2];
      assert LowerChar(t[k + 3]) == t[k + 3];
    }
  }

  /** A token starts with a letter, ends with a letter or a digit, and holds no newline. */
  lemma PackTokenChars(u: string)
    requires IsPackToken(u)
    ensures u != [] && !IsSpace(u[0]) && !IsDigit(u[0]) && !IsSpace(u[|u| - 1])
    ensures forall i :: 0 <= i < |u| ==> u[i] != '\n'
  {
  }

  /** A token at k ends the unit-or-pack alternative, at the latest where the token does. */
  lemma PackTokenEnds(t: string, k: nat, u: string)
    requires IsPackToken(u) && k + |u| <= |t| && t[k..k + |u|] == u
    ensures k < PackUnitEnd(t, k) <= k + |u|
  {
    if IsUnitWord(u) {
      UnitWordEnds(t, k, u);
    } else {
      assert t[k] == u[0];
      assert LowerChar(t[k]) == 'x';
      var d := k + |u| - 1;
      forall m | k + 1 <= m < d ensures IsSpace(t[m]) {
        assert t[m] == u[m - k];
      }
      assert t[d] == u[|u| - 1];
      SkipWhileStopsAt(t, k + 1, d, IsSpace);
    }
  }

  /** Skipping digits, then spaces, from p1 ends at p3. */
  lemma CountThenGap(t: string, p1: nat, p2: nat, p3: nat)
    requires p1 <= p2 <= p3 < |t|
    requires forall m :: p1 <= m < p2 ==> IsDigit(t[m])
    requires forall m :: p2 <= m < p3 ==> t[m] == ' '
    requires !IsSpace(t[p3]) && !IsDigit(t[p3])
    ensures SkipWhile(t, SkipWhile(t, p1, IsDigit), IsSpace) == p3
  {
    assert !IsDigit(t[p2]) by {
      if p2 < p3 {
        assert t[p2] == ' ';
      }
    }
    SkipWhileStopsAt(t, p1, p2, IsDigit);
    SkipWhileStopsAt(t, p2, p3, IsSpace);
  }

  /** A token at k followed by no newline completes the pattern. */
  lemma TokenTailOk(t: string, k: nat, u: string)
    requires IsPackToken(u) && k + |u| <= |t| && t[k..k + |u|] == u
    requires forall m :: k + |u| <= m < |t| ==> t[m] != '\n'
    ensures PackUnitEnd(t, k) >= 0 && TailOk(t, PackUnitEnd(t, k))
  {
    PackTokenChars(u);
    PackTokenEnds(t, k, u);
    var q := PackUnitEnd(t, k);
    forall m | q <= m < |t| ensures t[m] != '\n' {
      if m < k + |u| {
        assert t[m] == t[k..k + |u|][m - k];
      }
    }
  }

  /** The size pattern matches at p when spaces, digits, spaces and a token follow. */
  lemma DescriptorAt(t: string, p: nat, p1: nat, p2: nat, p3: nat, u: string)
    requires p <= p1 < p2 <= p3 && p3 + |u| <= |t|
    requires forall m :: p <= m < p1 ==> t[m] == ' '
    requires forall m :: p1 <= m < p2 ==> IsDigit(t[m])
    requires forall m :: p2 <= m < p3 ==> t[m] == ' '
    requires IsPackToken(u) && t[p3..p3 + |u|] == u
    requires forall m :: p3 + |u| <= m < |t| ==> t[m] != '\n'
    ensures SizeSuffixAt(t, p)
  {
    PackTokenChars(u);
    assert t[p3] == u[0];
    SkipWhileStopsAt(t, p, p1, IsSpace);
    CountThenGap(t, p1, p2, p3);
    TokenTailOk(t, p3, u);
    SizeSuffixAtIntro(t, p, p1, p3);
  }

  /** The characters of a descriptor, part by part. */
  lemma DescriptorChars(gap: nat, count: string, gap2: nat, u: string, lt: string)
    ensures var x, c0 := Descriptor(gap, count, gap2, u, lt), gap + |count|;
      && |x| == c0 + gap2 + |u| + |lt|
      && (forall i :: 0 <= i < gap ==> x[i] == ' ')
      && (forall i :: 0 <= i < |count| ==> x[gap + i] == count[i])
      && (forall i :: c0 <= i < c0 + gap2 ==> x[i] == ' ')
      && (forall i :: 0 <= i < |u| ==> x[c0 + gap2 + i] == u[i])
      && (forall i :: 0 <= i < |lt| ==> x[c0 + gap2 + |u| + i] == lt[i])
  {
    var sp, sp2 := Spaces(gap), Spaces(gap2);
    var a := sp + count;
    assert Descriptor(gap, count, gap2, u, lt) == ((a + sp2) + u) + lt;
    assert forall i :: |a| <= i < |a| + gap2 ==> (a + sp2)[i] == sp2[i - |a|];
  }

  lemma UnitWordNoNewline(u: string)
    requires IsUnitWord(u)
    ensures forall i :: 0 <= i < |u| ==> u[i] != '\n'
  {
  }

  lemma NoNewlineJoin(a: string, b: string)
    requires forall i :: 0 <= i < |a| ==> a[i] != '\n'
    requires forall i :: 0 <= i < |b| ==> b[i] != '\n'
    ensures forall i :: 0 <= i < |a + b| ==> (a + b)[i] != '\n'
  {
  }

  /** A descriptor holds a newline only where its tail does. */
  lemma DescriptorNoNewline(gap: nat, count: string, gap2: nat, u: string, lt: string)
    requires forall i :: 0 <= i < |count| ==> IsDigit(count[i])
    requires forall i :: 0 <= i < |u| ==> u[i] != '\n'
    requires forall i :: 0 <= i < |lt| ==> lt[i] != '\n'
    ensures var x := Descriptor(gap, count, gap2, u, lt); forall i :: 0 <= i < |x| ==> x[i] != '\n'
  {
    var sp, sp2 := Spaces(gap), Spaces(gap2);
    NoNewlineJoin(sp, count);
    NoNewlineJoin(sp + count, sp2);
    NoNewlineJoin(sp + count + sp2, u);
    NoNewlineJoin(sp + count + sp2 + u, lt);
  }

  lemma JoinIndex(b: string, x: string, i: int)
    requires 0 <= i < |x|
    ensures (b + x)[|b| + i] == x[i]
  {
  }

  /** After a name, a descriptor's first gap is spaces. */
  lemma DescriptorGapAt(b: string, gap: nat, count: string, gap2: nat, u: string, lt: string)
    ensures var t := b + Descriptor(gap, count, gap2, u, lt);
      |b| + gap <= |t| && forall m :: |b| <= m < |b| + gap ==> t[m] == ' '
  {
    var x := Descriptor(gap, count, gap2, u, lt);
    DescriptorChars(gap, count, gap2, u, lt);
    forall m | |b| <= m < |b| + gap ensures (b + x)[m] == ' ' {
      JoinIndex(b, x, m - |b|);
    }
  }

  /** After a name, a descriptor's count is digits. */
  lemma DescriptorCountAt(b: string, gap: nat, count: string, gap2: nat, u: string, lt: string)
    requires forall i :: 0 <= i < |count| ==> IsDigit(count[i])
    ensures var t, p1 := b + Descriptor(gap, count, gap2, u, lt), |b| + gap;
      p1 + |count| <= |t| && forall m :: p1 <= m < p1 + |count| ==> IsDigit(t[m])
  {
    var x := Descriptor(gap, count, gap2, u, lt);
    DescriptorChars(gap, count, gap2, u, lt);
    forall m | |b| + gap <= m < |b| + gap + |count| ensures IsDigit((b + x)[m]) {
      JoinIndex(b, x, gap + (m - |b| - gap));
    }
  }

  /** After a name, a descriptor's second gap is spaces. */
  lemma DescriptorGap2At(b: string, gap: nat, count: string, gap2: nat, u: string, lt: string)
    ensures var t, p2 := b + Descriptor(gap, count, gap2, u, lt), |b| + gap + |count|;
      p2 + gap2 <= |t| && forall m :: p2 <= m < p2 + gap2 ==> t[m] == ' '
  {
    var x := Descriptor(gap, count, gap2, u, lt);
    DescriptorChars(gap, count, gap2, u, lt);
    forall m | |b| + gap + |count| <= m < |b| + gap + |count| + gap2 ensures (b + x)[m] == ' ' {
      JoinIndex(b, x, m - |b|);
    }
  }

  /** After a name, a descriptor's token is where it belongs. */
  lemma DescriptorUnitAt(b: string, gap: nat, count: string, gap2: nat, u: string, lt: string)
    ensures var t, p3 := b + Descriptor(gap, count, gap2, u, lt), |b| + gap + |count| + gap2;
      p3 + |u| <= |t| && t[p3..p3 + |u|] == u
  {
    var x := Descriptor(gap, count, gap2, u, lt);
    DescriptorChars(gap, count, gap2, u, lt);
    var p3 := |b| + gap + |count| + gap2;
    forall i | 0 <= i < |u| ensures (b + x)[p3..p3 + |u|][i] == u[i] {
      JoinIndex(b, x, gap + |count| + gap2 + i);
    }
  }

  /** After a name, what follows a descriptor's token is its tail. */
  lemma DescriptorTailAt(b: string, gap: nat, count: string, gap2: nat, u: string, lt: string)
    ensures var t, p4 := b + Descriptor(gap, count, gap2, u, lt), |b| + gap + |count| + gap2 + |u|;
      p4 <= |t| && forall m :: p4 <= m < |t| ==> t[m] == lt[m - p4]
  {
    var x := Descriptor(gap, count, gap2, u, lt);
    DescriptorChars(gap, count, gap2, u, lt);
    var p4 := |b| + gap + |count| + gap2 + |u|;
    forall m | p4 <= m < |b| + |x| ensures (b + x)[m] == lt[m - p4] {
      JoinIndex(b, x, gap + |count| + gap2 + |u| + (m - p4));
    }
  }

  /** The size pattern matches where a lower-case descriptor starts. */
  lemma DescriptorMatches(b: string, gap: nat, count: string, gap2: nat, u: string, lt: string)
    requires count != [] && forall i :: 0 <= i < |count| ==> IsDigit(count[i])
    requires IsPackToken(u)
    requires forall i :: 0 <= i < |lt| ==> lt[i] != '\n'
    ensures var x := Descriptor(gap, count, gap2, u, lt);
      SizeSuffixAt(b + x, |b|) && forall i :: 0 <= i < |x| ==> x[i] != '\n'
  {
    var t := b + Descriptor(gap, count, gap2, u, lt);
    PackTokenChars(u);
    DescriptorNoNewline(gap, count, gap2, u, lt);
    DescriptorGapAt(b, gap, count, gap2, u, lt);
    DescriptorCountAt(b, gap, count, gap2, u, lt);
    DescriptorGap2At(b, gap, count, gap2, u, lt);
    DescriptorUnitAt(b, gap, count, gap2, u, lt);
    DescriptorTailAt(b, gap, count, gap2, u, lt);
    var p2 := |b| + gap + |count|;
    assert forall m :: p2 + gap2 + |u| <= m < |t| ==> t[m] != '\n';
    DescriptorAt(t, |b|, |b| + gap, p2, p2 + gap2, u);
  }

  /** A name ending in a non-space character strips to a non-empty string with that ending. */
  lemma TrimmedBase(base: string)
    requires base != [] && !IsSpace(base[|base| - 1])
    ensures var tb := Trim(base, IsSpace);
      tb == TrimLeft(base, IsSpace) && tb != [] && tb[|tb| - 1] == base[|base| - 1]
  {
    var pre := TrimLeftSplit(base, IsSpace);
    var lb := TrimLeft(base, IsSpace);
    assert lb != [];
    assert base[|base| - 1] == lb[|lb| - 1];
    TrimRightJoin(lb, [], IsSpace);
    assert lb + [] == lb;
  }

  /** Only the tail of a descriptor can lose trailing whitespace. */
  lemma DescriptorTrimRight(gap: nat, count: string, gap2: nat, unit: string, tail: string)
    requires IsPackToken(Lower(unit))
    ensures TrimRight(Descriptor(gap, count, gap2, unit, tail), IsSpace)
         == Descriptor(gap, count, gap2, unit, TrimRight(tail, IsSpace))
  {
    var head := Spaces(gap) + count + Spaces(gap2) + unit;
    PackTokenChars(Lower(unit));
    assert head[|head| - 1] == unit[|unit| - 1];
    assert LowerChar(unit[|unit| - 1]) == Lower(unit)[|unit| - 1];
    TrimRightJoin(head, tail, IsSpace);
  }

  /**
   * Stripping a name followed by a descriptor strips the name's leading
   * whitespace and the tail's trailing whitespace, and nothing between.
   */
  lemma DescribedNameTrimmed(base: string, gap: nat, count: string, gap2: nat, unit: string, tail: string)
    requires base != [] && !IsSpace(base[|base| - 1])
    requires IsPackToken(Lower(unit))
    ensures var tb := Trim(base, IsSpace);
      && tb != [] && tb[|tb| - 1] == base[|base| - 1]
      && Trim(base + Descriptor(gap, count, gap2, unit, tail), IsSpace)
         == tb + Descriptor(gap, count, gap2, unit, TrimRight(tail, IsSpace))
  {
    TrimmedBase(base);
    var lb, d := TrimLeft(base, IsSpace), Descriptor(gap, count, gap2, unit, tail);
    TrimLeftAppend(base, d, IsSpace);
    TrimRightJoin(lb, d, IsSpace);
    DescriptorTrimRight(gap, count, gap2, unit, tail);
  }

  /** Stripping removes exactly a newline-free descriptor that matches the pattern. */
  lemma StripDescriptor(b: string, x: string)
    requires b != [] && forall i :: 0 <= i < |b| ==> !IsUpper(b[i])
    requires var c := b[|b| - 1]; !IsSpace(c) && !IsDigit(c) && c != 'x'
    requires FirstSizeSuffix(b, 0) == |b|
    requires x != [] && (x[0] == ' ' || IsDigit(x[0]))
    requires forall i :: 0 <= i < |x| ==> x[i] != '\n'
    requires SizeSuffixAt(b + x, |b|)
    ensures StripSizeSuffix(b + x) == b
    ensures StripSizeSuffix(b) == b
  {
    assert (b + x)[|b + x| - 1] == x[|x| - 1];
    assert (b + x)[..|b|] == b;
    FirstSizeSuffixAtJoint(b, x);
  }

  /** Names whose lowered, stripped forms lose the same size suffix share a key. */
  lemma SameStrippedSameKey(n1: string, n2: string)
    requires StripSizeSuffix(Lower(Trim(n1, IsSpace))) == StripSizeSuffix(Lower(Trim(n2, IsSpace)))
    ensures NormalizeName(n1) == NormalizeName(n2)
  {
  }

  lemma LoweredDescribedName(base: string, gap: nat, count: string, gap2: nat, unit: string, tail: string)
    requires base != [] && !IsSpace(base[|base| - 1])
    requires forall i :: 0 <= i < |count| ==> IsDigit(count[i])
    requires IsPackToken(Lower(unit))
    ensures Lower(Trim(base + Descriptor(gap, count, gap2, unit, tail), IsSpace))
         == Lower(Trim(base, IsSpace))
            + Descriptor(gap, count, gap2, Lower(unit), Lower(TrimRight(tail, IsSpace)))
  {
    DescribedNameTrimmed(base, gap, count, gap2, unit, tail);
    LowerDescriptor(Trim(base, IsSpace), gap, count, gap2, unit, TrimRight(tail, IsSpace));
  }

  lemma StripLoweredDescriptor(b: string, gap: nat, count: string, gap2: nat, u: string, tail: string)
    requires b != [] && forall i :: 0 <= i < |b| ==> !IsUpper(b[i])
    requires var c := b[|b| - 1]; !IsSpace(c) && !IsDigit(c) && c != 'x'
    requires FirstSizeSuffix(b, 0) == |b|
    requires count != [] && forall i :: 0 <= i < |count| ==> IsDigit(count[i])
    requires IsPackToken(u)
    requires forall i :: 0 <= i < |tail| ==> tail[i] != '\n'
    ensures StripSizeSuffix(b + Descriptor(gap, count, gap2, u, Lower(tail))) == b
    ensures StripSizeSuffix(b) == b
  {
    var lt := Lower(tail);
    assert forall i :: 0 <= i < |lt| ==> lt[i] != '\n' by {
      forall i | 0 <= i < |lt| ensures lt[i] != '\n' {
        assert lt[i] == LowerChar(tail[i]);
      }
    }
    var x := Descriptor(gap, count, gap2, u, lt);
    DescriptorMatches(b, gap, count, gap2, u, lt);
    assert x[0] == if gap > 0 then ' ' else count[0];
    StripDescriptor(b, x);
  }

  /**
   * Appending a size descriptor to a name that has none leaves the key
   * unchanged. The descriptor is spaces, a count, spaces, a unit word or
   * an `x` multiplier in any case, then any tail without a newline:
   * "Noodles 70g", "  Noodles 140 G Pack" and "Noodles 2 x 70g" all share
   * the key of "Noodles". The name may start with whitespace; its last
   * character must not be one that could join the descriptor (whitespace,
   * a digit, an `x`), and the stripped name must not itself hold a size
   * suffix.
   */
  lemma SizeSuffixIgnored(base: string, gap: nat, count: string, gap2: nat, unit: string, tail: string)
    requires base != []
    requires var c := LowerChar(base[|base| - 1]); !IsSpace(c) && !IsDigit(c) && c != 'x'
    requires var tb := Trim(base, IsSpace); FirstSizeSuffix(Lower(tb), 0) == |tb|
    requires count != [] && forall i :: 0 <= i < |count| ==> IsDigit(count[i])
    requires IsPackToken(Lower(unit))
    requires forall i :: 0 <= i < |tail| ==> tail[i] != '\n'
    ensures NormalizeName(base + Descriptor(gap, count, gap2, unit, tail)) == NormalizeName(base)
  {
    var tb, rt := Trim(base, IsSpace), TrimRight(tail, IsSpace);
    DescribedNameTrimmed(base, gap, count, gap2, unit, tail);
    assert forall i :: 0 <= i < |rt| ==> rt[i] != '\n' by {
      forall i | 0 <= i < |rt| ensures rt[i] != '\n' {
        assert rt[i] == tail[i];
      }
    }
    var b := Lower(tb);
    assert b[|b| - 1] == LowerChar(base[|base| - 1]);
    StripLoweredDescriptor(b, gap, count, gap2, Lower(unit), rt);
    LoweredDescribedName(base, gap, count, gap2, unit, tail);
    SameStrippedSameKey(base + Descriptor(gap, count, gap2, unit, tail), base);
  }
}
