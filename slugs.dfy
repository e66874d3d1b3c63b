/**
 * URL slugs: slugify in scripts/fetch_products.py, the slug base that
 * cleanup_products recomputes in scripts/cleanup_products.py, and the
 * `-1`, `-2`, ... probing both scripts use to make a slug unique.
 */
module Slugs {
  import opened Strings

  /** Characters `re.sub(r'[^\w\s-]', '', ...)` keeps. */
  predicate IsSlugSource(c: char) { IsWordChar(c) || IsSpace(c) || c == '-' }

  /** Characters `re.sub(r'[\s_-]+', '-', ...)` folds into one hyphen. */
  predicate IsSlugSep(c: char) { IsSpace(c) || c == '_' || c == '-' }

  predicate IsHyphen(c: char) { c == '-' }

  /** A slug: lower-case letters, digits and single inner hyphens. */
  predicate IsSlugChar(c: char) { IsLower(c) || IsDigit(c) || c == '-' }

  predicate IsSlug(s: string) {
    && (forall i :: 0 <= i < |s| ==> IsSlugChar(s[i]))
    && (s == [] || (s[0] != '-' && s[|s| - 1] != '-'))
    && (forall i, j :: 0 <= i && j == i + 1 < |s| ==> !(s[i] == '-' && s[j] == '-'))
  }

  /** The hyphen-separated slug text of an already lower-cased string. */
  function SlugCore(lowered: string): string {
    Trim(Collapse(Retain(lowered, IsSlugSource), IsSlugSep, '-'), IsHyphen)
  }

  /** Separators collapsed into hyphens: slug characters, no double hyphen. */
  predicate IsFolded(s: string) {
    && (forall i :: 0 <= i < |s| ==> IsSlugChar(s[i]))
    && (forall i, j :: 0 <= i && j == i + 1 < |s| ==> !(s[i] == '-' && s[j] == '-'))
  }

  lemma FoldedShape(lowered: string)
    requires forall i :: 0 <= i < |lowered| ==> !IsUpper(lowered[i])
    ensures IsFolded(Collapse(Retain(lowered, IsSlugSource), IsSlugSep, '-'))
  {
    var kept := Retain(lowered, IsSlugSource);
    var folded := Collapse(kept, IsSlugSep, '-');
    RetainChars(lowered, IsSlugSource);
    CollapseShape(kept, IsSlugSep, '-');
    forall k | 0 <= k < |folded| ensures IsSlugChar(folded[k]) {
      var c := folded[k];
      assert c in folded;
      if c != '-' {
        assert c in kept && !IsSlugSep(c);
        var j :| 0 <= j < |lowered| && lowered[j] == c;
      }
    }
  }

  lemma FoldedParts(a: string, b: string)
    requires IsFolded(a + b)
    ensures IsFolded(a) && IsFolded(b)
  {
    var s := a + b;
    forall i | 0 <= i < |a| ensures IsSlugChar(a[i]) {
      assert a[i] == s[i];
    }
    forall i, j | 0 <= i && j == i + 1 < |a| ensures !(a[i] == '-' && a[j] == '-') {
      assert a[i] == s[i] && a[j] == s[j];
    }
    forall i | 0 <= i < |b| ensures IsSlugChar(b[i]) {
      assert b[i] == s[|a| + i];
    }
    forall i, j | 0 <= i && j == i + 1 < |b| ensures !(b[i] == '-' && b[j] == '-') {
      assert b[i] == s[|a| + i] && b[j] == s[|a| + j];
    }
  }

  /** Trimming hyphens off a folded string leaves a slug. */
  lemma TrimFolded(folded: string)
    requires IsFolded(folded)
    ensures IsSlug(Trim(folded, IsHyphen))
  {
    var l := TrimLeft(folded, IsHyphen);
    var pre := TrimLeftSplit(folded, IsHyphen);
    FoldedParts(pre, l);
    var r := TrimRight(l, IsHyphen);
    var post := TrimRightSplit(l, IsHyphen);
    FoldedParts(r, post);
    if r != [] {
      assert r[0] == (r + post)[0];
    }
    FoldedIsSlug(r);
  }

  /** A folded string with no hyphen at either end is a slug. */
  lemma FoldedIsSlug(r: string)
    requires IsFolded(r) && (r == [] || (r[0] != '-' && r[|r| - 1] != '-'))
    ensures IsSlug(r)
  {
  }

  lemma SlugCoreIsSlug(lowered: string)
    requires forall i :: 0 <= i < |lowered| ==> !IsUpper(lowered[i])
    ensures IsSlug(SlugCore(lowered))
  {
    FoldedShape(lowered);
    TrimFolded(Collapse(Retain(lowered, IsSlugSource), IsSlugSep, '-'));
  }

  /** slugify(text) */
  function Slugify(text: string): (slug: string)
    ensures IsSlug(slug)
  {
    var lowered := Lower(Trim(text, IsSpace));
    SlugCoreIsSlug(lowered);
    SlugCore(lowered)
  }

  lemma SlugCoreOfSlug(s: string)
    requires IsSlug(s)
    ensures SlugCore(s) == s
  {
    RetainAll(s, IsSlugSource);
    CollapseNoop(s, IsSlugSep, '-');
    TrimNoop(s, IsHyphen);
  }

  lemma LowerTrimOfSlug(s: string)
    requires IsSlug(s)
    ensures Lower(Trim(s, IsSpace)) == s
  {
    if s != [] {
      assert IsSlugChar(s[0]) && IsSlugChar(s[|s| - 1]);
    }
    TrimNoop(s, IsSpace);
    LowerOfLower(s);
  }

  /** A slug is its own slug. */
  lemma SlugifySlug(s: string)
    requires IsSlug(s)
    ensures Slugify(s) == s
  {
    LowerTrimOfSlug(s);
    SlugCoreOfSlug(s);
  }

  /** Slugifying twice changes nothing. */
  lemma SlugifyIdempotent(text: string)
    ensures Slugify(Slugify(text)) == Slugify(text)
  {
    SlugifySlug(Slugify(text));
  }

  // ---------------------------------------------------------------------
  // The slug base of cleanup_products, which does not strip first.

  /** `re.sub(r'[\s_-]+', '-', re.sub(r'[^\w\s-]', '', name.lower())).strip('-')` */
  function CleanupSlugBase(name: string): (slug: string)
    ensures IsSlug(slug)
  {
    SlugCoreIsSlug(Lower(name));
    SlugCore(Lower(name))
  }

  lemma HyphenTrimLeading(z: string)
    ensures Trim(['-'] + z, IsHyphen) == Trim(z, IsHyphen)
  {
    assert (['-'] + z)[1..] == z;
    TrimLeftUnfold(['-'] + z, IsHyphen);
  }

  lemma HyphenTrimTrailing(z: string)
    ensures Trim(z + ['-'], IsHyphen) == Trim(z, IsHyphen)
  {
    var l := TrimLeft(z, IsHyphen);
    if l == [] {
      TrimLeftEmpty(z, IsHyphen);
      TrimLeftAllDropped(z + ['-'], IsHyphen);
    } else {
      TrimLeftAppend(z, ['-'], IsHyphen);
      TrimRightUnfold(l + ['-'], IsHyphen);
      assert (l + ['-'])[..|l|] == l;
    }
  }

  /** Collapsing starts with the hyphen of a leading separator run. */
  lemma CollapseSepStart(y: string)
    requires y != [] && IsSlugSep(y[0])
    ensures Collapse(y, IsSlugSep, '-') == ['-'] + Collapse(TrimLeft(y, IsSlugSep), IsSlugSep, '-')
  {
    var t := TrimLeft(y, IsSlugSep);
    var run := y[..|y| - |t|];
    TrimLeftDropped(y, IsSlugSep);
    assert y == run + t;
    CollapseLeadingRun(run, t, IsSlugSep, '-');
    assert TrimLeft(t, IsSlugSep) == t;
  }

  /** A separator run in front of a string does not change its slug text. */
  lemma SlugOfLeadingRun(a: string, y: string)
    requires a != [] && forall i :: 0 <= i < |a| ==> IsSlugSep(a[i])
    ensures Trim(Collapse(a + y, IsSlugSep, '-'), IsHyphen) == Trim(Collapse(y, IsSlugSep, '-'), IsHyphen)
  {
    var t := TrimLeft(y, IsSlugSep);
    CollapseLeadingRun(a, y, IsSlugSep, '-');
    HyphenTrimLeading(Collapse(t, IsSlugSep, '-'));
    if y != [] && IsSlugSep(y[0]) {
      CollapseSepStart(y);
    }
  }

  /** A separator run behind a string does not change its slug text. */
  lemma SlugOfTrailingRun(y: string, b: string)
    requires b != [] && forall i :: 0 <= i < |b| ==> IsSlugSep(b[i])
    ensures Trim(Collapse(y + b, IsSlugSep, '-'), IsHyphen) == Trim(Collapse(y, IsSlugSep, '-'), IsHyphen)
  {
    CollapseTrailingRun(y, b, IsSlugSep, '-');
    HyphenTrimTrailing(Collapse(y, IsSlugSep, '-'));
  }

  lemma LowerOfSpaces(w: string)
    requires forall i :: 0 <= i < |w| ==> IsSpace(w[i])
    ensures forall i :: 0 <= i < |Lower(w)| ==> IsSpace(Lower(w)[i]) && IsSlugSource(Lower(w)[i])
  {
  }

  /** Filtering keeps whitespace around a string. */
  lemma RetainAround(lp: string, lm: string, lq: string)
    requires forall i :: 0 <= i < |lp| ==> IsSlugSource(lp[i])
    requires forall i :: 0 <= i < |lq| ==> IsSlugSource(lq[i])
    ensures Retain(lp + (lm + lq), IsSlugSource) == lp + (Retain(lm, IsSlugSource) + lq)
  {
    RetainAppend(lp, lm + lq, IsSlugSource);
    RetainAppend(lm, lq, IsSlugSource);
    RetainAll(lp, IsSlugSource);
    RetainAll(lq, IsSlugSource);
  }

  /** Lower-casing whitespace keeps it whitespace. */
  lemma LowerAroundTrim(pre: string, mid: string, post: string)
    requires forall i :: 0 <= i < |pre| ==> IsSpace(pre[i])
    requires forall i :: 0 <= i < |post| ==> IsSpace(post[i])
    ensures Lower(pre + (mid + post)) == Lower(pre) + (Lower(mid) + Lower(post))
    ensures forall i :: 0 <= i < |Lower(pre)| ==> IsSlugSep(Lower(pre)[i])
    ensures forall i :: 0 <= i < |Lower(post)| ==> IsSlugSep(Lower(post)[i])
  {
    LowerAppend(pre, mid + post);
    LowerAppend(mid, post);
    LowerOfSpaces(pre);
    LowerOfSpaces(post);
  }

  /** Separator runs around a string do not change its slug text. */
  lemma SlugOfSurrounded(lp: string, y: string, lq: string)
    requires forall i :: 0 <= i < |lp| ==> IsSlugSep(lp[i])
    requires forall i :: 0 <= i < |lq| ==> IsSlugSep(lq[i])
    ensures Trim(Collapse(lp + (y + lq), IsSlugSep, '-'), IsHyphen) == Trim(Collapse(y, IsSlugSep, '-'), IsHyphen)
  {
    if lp != [] {
      SlugOfLeadingRun(lp, y + lq);
    } else {
      assert lp + (y + lq) == y + lq;
    }
    if lq != [] {
      SlugOfTrailingRun(y, lq);
    } else {
      assert y + lq == y;
    }
  }

  /**
   * The slug base cleanup_products recomputes is the slug fetch_products
   * gave: stripping whitespace first makes no difference.
   */
  lemma CleanupSlugBaseIsSlugify(name: string)
    ensures CleanupSlugBase(name) == Slugify(name)
  {
    var mid := Trim(name, IsSpace);
    var pre, post := TrimSplit(name, IsSpace);
    LowerAroundTrim(pre, mid, post);
    var lp, lm, lq := Lower(pre), Lower(mid), Lower(post);
    RetainAround(lp, lm, lq);
    SlugOfSurrounded(lp, Retain(lm, IsSlugSource), lq);
  }

  // ---------------------------------------------------------------------
  // Making a slug unique

  /** The n-th slug tried for `base`: the base itself, then `base-1`, `base-2`, ... */
  function Candidate(base: string, n: nat): string {
    if n == 0 then base else base + "-" + Decimal(n)
  }

  /** Distinct probe counts give distinct slugs. */
  lemma CandidateInjective(base: string, m: nat, n: nat)
    requires Candidate(base, m) == Candidate(base, n)
    ensures m == n
  {
    if m != 0 && n != 0 {
      var cm, cn := Candidate(base, m), Candidate(base, n);
      assert Decimal(m) == cm[|base| + 1..];
      assert Decimal(n) == cn[|base| + 1..];
      DecimalInjective(m, n);
    }
  }

  /**
   * The probing loop `slug = base; counter = 1; while slug in used: slug =
   * f"{base}-{counter}"; counter += 1`: the first candidate not yet used.
   */
  method ProbeSlug(base: string, used: set<string>) returns (slug: string, ghost n: nat)
    ensures slug == Candidate(base, n) && slug !in used
    ensures forall m :: 0 <= m < n ==> Candidate(base, m) in used
  {
    slug := base;
    n := 0;
    var counter := 1;
    ghost var tried: set<string> := {};
    while slug in used
      invariant counter == n + 1
      invariant slug == Candidate(base, n)
      invariant forall m :: 0 <= m < n ==> Candidate(base, m) in used
      invariant tried <= used && |tried| == n
      invariant forall t :: t in tried ==> exists m :: 0 <= m < n && t == Candidate(base, m)
      decreases |used| - |tried|
    {
      assert slug !in tried by {
        if slug in tried {
          var m :| 0 <= m < n && slug == Candidate(base, m);
          CandidateInjective(base, m, n);
        }
      }
      tried := tried + {slug};
      SubsetCardinality(tried, used);
      slug := base + "-" + Decimal(counter);
      n := counter;
      counter := counter + 1;
    }
  }

  lemma SubsetCardinality<T>(a: set<T>, b: set<T>)
    requires a <= b
    ensures |a| <= |b|
  {
    assert b == a + (b - a);
  }
}
