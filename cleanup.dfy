/**
 * cleanup_products in scripts/cleanup_products.py: names are fixed,
 * incomplete records dropped, records with the same normalised name merged
 * (the one with more positive nutrient values wins), slugs made unique again
 * and the records counted by category.
 */
module Cleanup {
  import opened Strings
  import opened Products
  import opened Names
  import opened NameFix
  import opened Slugs

  // ---------------------------------------------------------------------
  // Merging duplicates. The merge is stated for any key function; the
  // cleanup uses `Key`, normalize_name of the record's name.

  /** The duplicate-detection key of a record: normalize_name(product['name']). */
  function Key(p: Product): string {
    NormalizeName(p.name)
  }

  /** How many nutrient values of a record are positive. */
  function Richness(p: Product): nat {
    PositiveCount(p.nutrients)
  }

  predicate DistinctKeys(ps: seq<Product>, key: Product -> string) {
    forall i, j :: 0 <= i < j < |ps| ==> key(ps[i]) != key(ps[j])
  }

  /** The first position of a record with key k, or -1. */
  function FindKey(ps: seq<Product>, key: Product -> string, k: string): (i: int)
    ensures -1 <= i < |ps|
    ensures i == -1 <==> forall j :: 0 <= j < |ps| ==> key(ps[j]) != k
    ensures 0 <= i ==> key(ps[i]) == k && forall j :: 0 <= j < i ==> key(ps[j]) != k
  {
    if ps == [] then -1
    else if key(ps[0]) == k then 0
    else
      var r := FindKey(ps[1..], key, k);
      assert forall j :: 1 <= j < |ps| ==> ps[1..][j - 1] == ps[j];
      if r < 0 then -1 else r + 1
  }

  /** Among records with distinct keys, the record with key k is the one found. */
  lemma FindKeyUnique(ps: seq<Product>, key: Product -> string, i: int, k: string)
    requires DistinctKeys(ps, key) && 0 <= i < |ps| && key(ps[i]) == k
    ensures FindKey(ps, key, k) == i
  {
  }

  /**
   * One iteration of the merge loop: a new key is appended; a known key's
   * record is replaced in place when the newcomer has strictly more
   * positive values, and kept otherwise.
   */
  function Step(unique: seq<Product>, p: Product, key: Product -> string): seq<Product> {
    var i := FindKey(unique, key, key(p));
    if i < 0 then unique + [p]
    else if Richness(p) > Richness(unique[i]) then unique[i := p]
    else unique
  }

  /** The merge loop over the whole list. */
  function Dedup(ps: seq<Product>, key: Product -> string): seq<Product>
    decreases |ps|
  {
    if ps == [] then [] else Step(Dedup(ps[..|ps| - 1], key), ps[|ps| - 1], key)
  }

  /**
   * What the merged list promises about the records it was built from:
   * distinct keys, no more records than the input, only records of the
   * input, and every key of the input held by a record at least as rich as
   * every input record with that key.
   */
  predicate Merged(unique: seq<Product>, ps: seq<Product>, key: Product -> string) {
    && DistinctKeys(unique, key)
    && |unique| <= |ps|
    && (forall i :: 0 <= i < |unique| ==> unique[i] in ps)
    && (forall j :: 0 <= j < |ps| ==> FindKey(unique, key, key(ps[j])) >= 0)
    && (forall j :: 0 <= j < |ps| ==>
          Richness(ps[j]) <= Richness(unique[FindKey(unique, key, key(ps[j]))]))
  }

  /** A merge step keeps the keys distinct. */
  lemma {:induction false} StepKeepsDistinct(unique: seq<Product>, p: Product, key: Product -> string)
    requires DistinctKeys(unique, key)
    ensures DistinctKeys(Step(unique, p, key), key)
  {
    var i := FindKey(unique, key, key(p));
    if i >= 0 && Richness(p) > Richness(unique[i]) {
      var r := unique[i := p];
      forall a, b | 0 <= a < b < |r| ensures key(r[a]) != key(r[b]) {
        assert key(r[a]) == key(unique[a]) && key(r[b]) == key(unique[b]);
      }
    }
  }

  /** A merge step keeps every earlier key's record at least as rich. */
  lemma StepKeepsRicher(unique: seq<Product>, p: Product, key: Product -> string, k: string)
    requires DistinctKeys(unique, key) && FindKey(unique, key, k) >= 0
    ensures var r := Step(unique, p, key);
      FindKey(r, key, k) >= 0 && Richness(unique[FindKey(unique, key, k)]) <= Richness(r[FindKey(r, key, k)])
  {
    var i := FindKey(unique, key, k);
    var r := Step(unique, p, key);
    StepKeepsDistinct(unique, p, key);
    assert i < |r| && key(r[i]) == k;
    FindKeyUnique(r, key, i, k);
  }

  /** After a merge step the newcomer's key is held by a record at least as rich. */
  lemma StepHoldsNewcomer(unique: seq<Product>, p: Product, key: Product -> string)
    requires DistinctKeys(unique, key)
    ensures var r := Step(unique, p, key);
      FindKey(r, key, key(p)) >= 0 && Richness(p) <= Richness(r[FindKey(r, key, key(p))])
  {
    var i := FindKey(unique, key, key(p));
    var r := Step(unique, p, key);
    StepKeepsDistinct(unique, p, key);
    var at := if i < 0 then |unique| else i;
    assert at < |r| && key(r[at]) == key(p);
    FindKeyUnique(r, key, at, key(p));
  }

  /** A merge step keeps records of the old list or the newcomer, and grows by at most one. */
  lemma StepFromInput(u: seq<Product>, front: seq<Product>, p: Product, key: Product -> string)
    requires |u| <= |front|
    requires forall i :: 0 <= i < |u| ==> u[i] in front
    ensures |Step(u, p, key)| <= |front| + 1
    ensures forall i :: 0 <= i < |Step(u, p, key)| ==> Step(u, p, key)[i] in front + [p]
  {
  }

  /** A merge step keeps every key seen so far held by a record at least as rich. */
  lemma StepRicher(u: seq<Product>, front: seq<Product>, p: Product, key: Product -> string)
    requires DistinctKeys(u, key)
    requires forall j :: 0 <= j < |front| ==> FindKey(u, key, key(front[j])) >= 0
    requires forall j :: 0 <= j < |front| ==>
      Richness(front[j]) <= Richness(u[FindKey(u, key, key(front[j]))])
    ensures var r, ps := Step(u, p, key), front + [p];
      forall j :: 0 <= j < |ps| ==>
        FindKey(r, key, key(ps[j])) >= 0 && Richness(ps[j]) <= Richness(r[FindKey(r, key, key(ps[j]))])
  {
    var r, ps := Step(u, p, key), front + [p];
    forall j | 0 <= j < |ps|
      ensures FindKey(r, key, key(ps[j])) >= 0 && Richness(ps[j]) <= Richness(r[FindKey(r, key, key(ps[j]))])
    {
      if j == |front| {
        StepHoldsNewcomer(u, p, key);
      } else {
        assert ps[j] == front[j];
        StepKeepsRicher(u, p, key, key(ps[j]));
      }
    }
  }

  /** The merged list has the properties of `Merged`. */
  lemma {:induction false} DedupMerged(ps: seq<Product>, key: Product -> string)
    ensures Merged(Dedup(ps, key), ps, key)
    decreases |ps|
  {
    if ps != [] {
      var front, p := ps[..|ps| - 1], ps[|ps| - 1];
      assert ps == front + [p];
      var u := Dedup(front, key);
      DedupMerged(front, key);
      StepKeepsDistinct(u, p, key);
      StepFromInput(u, front, p, key);
      StepRicher(u, front, p, key);
    }
  }

  /** Records whose keys are already distinct are all kept, in order. */
  lemma {:induction false} DedupOfDistinct(ps: seq<Product>, key: Product -> string)
    requires DistinctKeys(ps, key)
    ensures Dedup(ps, key) == ps
    decreases |ps|
  {
    if ps != [] {
      var front := ps[..|ps| - 1];
      DedupOfDistinct(front, key);
      assert FindKey(front, key, key(ps[|ps| - 1])) == -1;
      assert front + [ps[|ps| - 1]] == ps;
    }
  }

  /** A record of a list has a key that occurs in it. */
  lemma FindKeyOfMember(xs: seq<Product>, x: Product, key: Product -> string)
    requires x in xs
    ensures 0 <= FindKey(xs, key, key(x)) < |xs|
  {
  }

  /** The merged records are listed in the order their keys first occur in the input. */
  predicate FirstSeenOrder(unique: seq<Product>, ps: seq<Product>, key: Product -> string) {
    forall i, j :: 0 <= i < j < |unique| ==>
      FindKey(ps, key, key(unique[i])) < FindKey(ps, key, key(unique[j]))
  }

  /** Keys of records taken from `front` first occur where they first occur in `front`. */
  lemma KeysInFront(u: seq<Product>, front: seq<Product>, p: Product, key: Product -> string)
    requires forall i :: 0 <= i < |u| ==> u[i] in front
    ensures forall i :: 0 <= i < |u| ==>
      FindKey(front + [p], key, key(u[i])) == FindKey(front, key, key(u[i])) < |front|
  {
    forall i | 0 <= i < |u| ensures FindKey(front + [p], key, key(u[i])) == FindKey(front, key, key(u[i])) < |front| {
      FindKeyOfMember(front, u[i], key);
      FindKeyAppend(front, p, key, key(u[i]));
    }
  }

  /** Appending a record with a new key keeps the first-occurrence order. */
  lemma OrderAppendNew(u: seq<Product>, front: seq<Product>, p: Product, key: Product -> string)
    requires forall i :: 0 <= i < |u| ==> u[i] in front
    requires FirstSeenOrder(u, front, key)
    requires FindKey(front + [p], key, key(p)) == |front|
    ensures FirstSeenOrder(u + [p], front + [p], key)
  {
    var r := u + [p];
    forall i, j | 0 <= i < j < |r|
      ensures FindKey(front + [p], key, key(r[i])) < FindKey(front + [p], key, key(r[j]))
    {
      OrderAppendPair(u, front, p, key, i, j);
    }
  }

  lemma OrderAppendPair(u: seq<Product>, front: seq<Product>, p: Product, key: Product -> string, i: int, j: int)
    requires 0 <= i < j <= |u|
    requires u[i] in front && (j < |u| ==> u[j] in front)
    requires j < |u| ==> FindKey(front, key, key(u[i])) < FindKey(front, key, key(u[j]))
    requires FindKey(front + [p], key, key(p)) == |front|
    ensures var r, ps := u + [p], front + [p];
      FindKey(ps, key, key(r[i])) < FindKey(ps, key, key(r[j]))
  {
    var r := u + [p];
    assert r[i] == u[i];
    FindKeyOfMember(front, u[i], key);
    FindKeyAppend(front, p, key, key(u[i]));
    if j < |u| {
      assert r[j] == u[j];
      FindKeyOfMember(front, u[j], key);
      FindKeyAppend(front, p, key, key(u[j]));
    }
  }

  /** A key not held by the merged list first occurs at the appended record. */
  lemma NewKeyOccursLast(u: seq<Product>, front: seq<Product>, p: Product, key: Product -> string)
    requires forall j :: 0 <= j < |front| ==> FindKey(u, key, key(front[j])) >= 0
    requires FindKey(u, key, key(p)) < 0
    ensures FindKey(front + [p], key, key(p)) == |front|
  {
    assert FindKey(front, key, key(p)) == -1;
    FindKeyAppend(front, p, key, key(p));
  }

  /** Replacing records by records of the same keys keeps the first-occurrence order. */
  lemma OrderSameKeys(u: seq<Product>, r: seq<Product>, front: seq<Product>, p: Product, key: Product -> string)
    requires Merged(u, front, key) && FirstSeenOrder(u, front, key)
    requires |r| == |u| && forall i :: 0 <= i < |u| ==> key(r[i]) == key(u[i])
    ensures FirstSeenOrder(r, front + [p], key)
  {
    KeysInFront(u, front, p, key);
  }

  /** A merge step keeps the first-occurrence order. */
  lemma StepKeepsOrder(u: seq<Product>, front: seq<Product>, p: Product, key: Product -> string)
    requires Merged(u, front, key) && FirstSeenOrder(u, front, key)
    ensures FirstSeenOrder(Step(u, p, key), front + [p], key)
  {
    var at := FindKey(u, key, key(p));
    if at < 0 {
      NewKeyOccursLast(u, front, p, key);
      OrderAppendNew(u, front, p, key);
    } else {
      var r := Step(u, p, key);
      assert forall i :: 0 <= i < |r| ==> key(r[i]) == key(u[i]);
      OrderSameKeys(u, r, front, p, key);
    }
  }

  /** The merged list keeps the first-occurrence order of keys. */
  lemma {:induction false} DedupOrder(ps: seq<Product>, key: Product -> string)
    ensures FirstSeenOrder(Dedup(ps, key), ps, key)
    decreases |ps|
  {
    if ps != [] {
      var front, p := ps[..|ps| - 1], ps[|ps| - 1];
      assert ps == front + [p];
      DedupOrder(front, key);
      DedupMerged(front, key);
      StepKeepsOrder(Dedup(front, key), front, p, key);
    }
  }

  /**
   * q occurs in ps, and every earlier record with q's key is strictly
   * poorer: among equally rich records of a key the earliest is kept.
   */
  ghost predicate FirstBest(q: Product, ps: seq<Product>, key: Product -> string) {
    exists m :: 0 <= m < |ps| && ps[m] == q &&
      forall j :: 0 <= j < m && key(ps[j]) == key(q) ==> Richness(ps[j]) < Richness(q)
  }

  /** First-best records of a list stay first-best when a record is appended. */
  lemma FirstBestAppend(q: Product, ps: seq<Product>, p: Product, key: Product -> string)
    requires FirstBest(q, ps, key)
    ensures FirstBest(q, ps + [p], key)
  {
    var m :| 0 <= m < |ps| && ps[m] == q &&
      forall j :: 0 <= j < m && key(ps[j]) == key(q) ==> Richness(ps[j]) < Richness(q);
    assert (ps + [p])[m] == q;
    assert forall j :: 0 <= j < m ==> (ps + [p])[j] == ps[j];
  }

  /** A newcomer richer than every earlier record of its key is first-best. */
  lemma FirstBestNewcomer(front: seq<Product>, p: Product, key: Product -> string)
    requires forall j :: 0 <= j < |front| && key(front[j]) == key(p) ==> Richness(front[j]) < Richness(p)
    ensures FirstBest(p, front + [p], key)
  {
    var ps := front + [p];
    assert ps[|front|] == p;
    assert forall j :: 0 <= j < |front| ==> ps[j] == front[j];
  }

  /** A merge step keeps every kept record first-best. */
  lemma StepKeepsFirstBest(u: seq<Product>, front: seq<Product>, p: Product, key: Product -> string)
    requires Merged(u, front, key)
    requires forall i :: 0 <= i < |u| ==> FirstBest(u[i], front, key)
    ensures forall i :: 0 <= i < |Step(u, p, key)| ==> FirstBest(Step(u, p, key)[i], front + [p], key)
  {
    var r := Step(u, p, key);
    var at := FindKey(u, key, key(p));
    forall i | 0 <= i < |u| ensures FirstBest(u[i], front + [p], key) {
      FirstBestAppend(u[i], front, p, key);
    }
    if at < 0 {
      forall j | 0 <= j < |front| ensures key(front[j]) != key(p) {
        assert FindKey(u, key, key(front[j])) >= 0;
      }
      FirstBestNewcomer(front, p, key);
      assert r == u + [p];
    } else if Richness(p) > Richness(u[at]) {
      forall j | 0 <= j < |front| && key(front[j]) == key(p) ensures Richness(front[j]) < Richness(p) {
        FindKeyUnique(u, key, at, key(front[j]));
      }
      FirstBestNewcomer(front, p, key);
    }
  }

  /** Every merged record is the first of the richest input records of its key. */
  lemma {:induction false} DedupFirstBest(ps: seq<Product>, key: Product -> string)
    ensures forall i :: 0 <= i < |Dedup(ps, key)| ==> FirstBest(Dedup(ps, key)[i], ps, key)
    decreases |ps|
  {
    if ps != [] {
      var front, p := ps[..|ps| - 1], ps[|ps| - 1];
      assert ps == front + [p];
      DedupFirstBest(front, key);
      DedupMerged(front, key);
      StepKeepsFirstBest(Dedup(front, key), front, p, key);
    }
  }

  /**
   * `unique_products.index(existing)`: the first position holding a record
   * equal to `x`.
   */
  method IndexOf(xs: seq<Product>, x: Product) returns (idx: int)
    requires x in xs
    ensures 0 <= idx < |xs| && xs[idx] == x
    ensures forall j :: 0 <= j < idx ==> xs[j] != x
  {
    idx := 0;
    while xs[idx] != x
      invariant 0 <= idx < |xs|
      invariant x in xs[idx..]
      invariant forall j :: 0 <= j < idx ==> xs[j] != x
      decreases |xs| - idx
    {
      idx := idx + 1;
    }
  }

  lemma DedupSnoc(ps: seq<Product>, i: int, key: Product -> string)
    requires 0 <= i < |ps|
    ensures Dedup(ps[..i + 1], key) == Step(Dedup(ps[..i], key), ps[i], key)
  {
    assert ps[..i + 1][..i] == ps[..i];
  }

  /** `seen_names` maps each kept key to the record kept for it. */
  ghost predicate Indexes(seen: map<string, Product>, unique: seq<Product>, key: Product -> string) {
    && (forall k :: k in seen <==> FindKey(unique, key, k) >= 0)
    && (forall k :: k in seen ==> seen[k] == unique[FindKey(unique, key, k)])
  }

  /** Appending a record with a new key keeps `seen_names` in step. */
  lemma IndexesAppend(seen: map<string, Product>, unique: seq<Product>, p: Product, key: Product -> string)
    requires DistinctKeys(unique, key) && Indexes(seen, unique, key) && key(p) !in seen
    ensures Indexes(seen[key(p) := p], unique + [p], key)
  {
    forall k ensures FindKey(unique + [p], key, k) == if k == key(p) then |unique| else FindKey(unique, key, k) {
      FindKeyAppend(unique, p, key, k);
    }
  }

  /** Where a key first occurs once a record is appended. */
  lemma FindKeyAppend(xs: seq<Product>, p: Product, key: Product -> string, k: string)
    ensures FindKey(xs + [p], key, k) ==
      if FindKey(xs, key, k) >= 0 then FindKey(xs, key, k) else if key(p) == k then |xs| else -1
  {
    var r := xs + [p];
    var i := FindKey(xs, key, k);
    if i >= 0 {
      assert r[i] == xs[i];
    } else if k == key(p) {
      assert r[|xs|] == p;
    }
    assert forall m :: 0 <= m < |xs| ==> r[m] == xs[m];
  }

  /** Lists with the same key at every position find every key at the same place. */
  lemma FindKeySameKeys(xs: seq<Product>, ys: seq<Product>, key: Product -> string, k: string)
    requires |xs| == |ys| && forall j :: 0 <= j < |xs| ==> key(xs[j]) == key(ys[j])
    ensures FindKey(xs, key, k) == FindKey(ys, key, k)
  {
    var a := FindKey(xs, key, k);
    if a >= 0 {
      assert key(ys[a]) == k;
      var b := FindKey(ys, key, k);
      assert key(xs[b]) == k;
    }
  }

  /** Replacing a record by one with the same key moves no key. */
  lemma ReplaceKeepsFind(unique: seq<Product>, idx: int, p: Product, key: Product -> string)
    requires 0 <= idx < |unique| && key(unique[idx]) == key(p)
    ensures forall k :: FindKey(unique[idx := p], key, k) == FindKey(unique, key, k)
  {
    var r := unique[idx := p];
    assert forall j :: 0 <= j < |r| ==> key(r[j]) == key(unique[j]);
    forall k ensures FindKey(r, key, k) == FindKey(unique, key, k) {
      FindKeySameKeys(r, unique, key, k);
    }
  }

  /** Replacing the record of a key keeps `seen_names` in step. */
  lemma IndexesReplace(seen: map<string, Product>, unique: seq<Product>, idx: int, p: Product, key: Product -> string)
    requires DistinctKeys(unique, key) && Indexes(seen, unique, key)
    requires 0 <= idx < |unique| && key(unique[idx]) == key(p)
    ensures Indexes(seen[key(p) := p], unique[idx := p], key)
  {
    var r := unique[idx := p];
    var seen' := seen[key(p) := p];
    ReplaceKeepsFind(unique, idx, p, key);
    FindKeyUnique(unique, key, idx, key(p));
    assert key(p) in seen;
    forall k | k in seen' ensures seen'[k] == r[FindKey(r, key, k)] {
      if k != key(p) {
        assert FindKey(unique, key, k) != idx;
      }
    }
  }

  /**
   * Step 3 of cleanup_products: the loop over `seen_names` and
   * `unique_products` computes the merge. cleanup_products runs it with
   * `Key`, normalize_name of the record's name.
   */
  method DedupProducts(ps: seq<Product>, key: Product -> string) returns (unique: seq<Product>)
    ensures unique == Dedup(ps, key)
  {
    unique := [];
    var seen: map<string, Product> := map[];
    var i := 0;
    while i < |ps|
      invariant 0 <= i <= |ps|
      invariant unique == Dedup(ps[..i], key)
      invariant DistinctKeys(unique, key) && Indexes(seen, unique, key)
    {
      var p := ps[i];
      DedupSnoc(ps, i, key);
      StepKeepsDistinct(unique, p, key);
      ghost var next := Step(unique, p, key);
      var k := key(p);
      if k in seen {
        var existing := seen[k];
        if PositiveCount(p.nutrients) > PositiveCount(existing.nutrients) {
          var idx := IndexOf(unique, existing);
          FindKeyUnique(unique, key, idx, k);
          IndexesReplace(seen, unique, idx, p, key);
          unique := unique[idx := p];
          seen := seen[k := p];
        }
      } else {
        IndexesAppend(seen, unique, p, key);
        unique := unique + [p];
        seen := seen[k := p];
      }
      assert unique == next;
      i := i + 1;
    }
    assert ps[..i] == ps;
  }

  // ---------------------------------------------------------------------
  // Fixing names and dropping incomplete records

  /** Step 1: `[fix_product_name(p) for p in products]`. */
  function FixNames(ps: seq<Product>): (r: seq<Product>)
    ensures |r| == |ps| && forall i :: 0 <= i < |ps| ==> r[i] == FixProductName(ps[i])
  {
    seq(|ps|, i requires 0 <= i < |ps| => FixProductName(ps[i]))
  }

  /** Step 2: `[p for p in products if is_complete_product(p)]`. */
  function CompleteOnly(ps: seq<Product>): (r: seq<Product>)
    ensures |r| <= |ps|
    ensures forall i :: 0 <= i < |r| ==> IsCompleteProduct(r[i]) && r[i] in ps
    ensures forall j :: 0 <= j < |ps| && IsCompleteProduct(ps[j]) ==> ps[j] in r
  {
    if ps == [] then []
    else
      var rest := CompleteOnly(ps[1..]);
      assert forall j :: 1 <= j < |ps| ==> ps[j] == ps[1..][j - 1];
      if IsCompleteProduct(ps[0]) then [ps[0]] + rest else rest
  }

  /** The filter keeps a single record exactly when it is complete. */
  lemma CompleteOnlySingle(p: Product)
    ensures CompleteOnly([p]) == if IsCompleteProduct(p) then [p] else []
  {
  }

  /**
   * The filter works record by record: filtering a concatenation is
   * concatenating the filtered parts, so order and repetitions are kept.
   */
  lemma {:induction false} CompleteOnlyAppend(a: seq<Product>, b: seq<Product>)
    ensures CompleteOnly(a + b) == CompleteOnly(a) + CompleteOnly(b)
    decreases |a|
  {
    if a == [] {
      assert a + b == b;
    } else {
      assert (a + b)[1..] == a[1..] + b;
      CompleteOnlyAppend(a[1..], b);
    }
  }

  // ---------------------------------------------------------------------
  // Regenerating slugs

  /** The slugs of a list of records. */
  function SlugSet(ps: seq<Product>): set<string> {
    set i | 0 <= i < |ps| :: ps[i].slug
  }

  lemma SlugSetHas(ps: seq<Product>, j: int)
    requires 0 <= j < |ps|
    ensures ps[j].slug in SlugSet(ps)
  {
  }

  lemma SlugSetSnoc(ps: seq<Product>, p: Product)
    ensures SlugSet(ps + [p]) == SlugSet(ps) + {p.slug}
  {
    var r := ps + [p];
    assert r[|ps|] == p;
    assert forall i :: 0 <= i < |ps| ==> r[i] == ps[i];
  }

  /** `slug` is the first of `base`, `base-1`, `base-2`, ... not in `used`. */
  ghost predicate FirstFree(base: string, used: set<string>, slug: string) {
    exists n: nat :: slug == Candidate(base, n) && slug !in used &&
      forall m :: 0 <= m < n ==> Candidate(base, m) in used
  }

  /** The records before i have their new slugs, the rest are untouched. */
  ghost predicate Assigned(ps: seq<Product>, out: seq<Product>, i: int) {
    && |out| == |ps| && 0 <= i <= |ps|
    && (forall j :: i <= j < |ps| ==> out[j] == ps[j])
    && (forall j :: 0 <= j < i ==> out[j] == ps[j].(slug := out[j].slug))
    && (forall j, k :: 0 <= j < k < i ==> out[j].slug != out[k].slug)
    && (forall j :: 0 <= j < i ==> FirstFree(CleanupSlugBase(ps[j].name), SlugSet(out[..j]), out[j].slug))
  }

  /** Giving record i the first free candidate extends the assignment by one. */
  lemma AssignStep(ps: seq<Product>, out: seq<Product>, i: int, base: string, slug: string, n: nat)
    requires Assigned(ps, out, i) && i < |ps| && base == CleanupSlugBase(ps[i].name)
    requires slug == Candidate(base, n) && slug !in SlugSet(out[..i])
    requires forall m :: 0 <= m < n ==> Candidate(base, m) in SlugSet(out[..i])
    ensures var next := out[i := out[i].(slug := slug)];
      Assigned(ps, next, i + 1) && SlugSet(next[..i + 1]) == SlugSet(out[..i]) + {slug}
  {
    var next := out[i := out[i].(slug := slug)];
    assert next[..i + 1] == out[..i] + [next[i]];
    SlugSetSnoc(out[..i], next[i]);
    forall j | 0 <= j < i ensures out[j].slug != slug {
      SlugSetHas(out[..i], j);
    }
    forall j | 0 <= j < i
      ensures FirstFree(CleanupSlugBase(ps[j].name), SlugSet(next[..j]), next[j].slug)
    {
      assert next[..j] == out[..j];
    }
    assert next[..i] == out[..i];
    assert FirstFree(base, SlugSet(next[..i]), next[i].slug);
  }

  /**
   * Step 4: every record gets the first free candidate of the slug base of
   * its name, given the slugs handed out before it; only the slug changes,
   * and no two records share a slug.
   */
  method AssignSlugs(ps: seq<Product>) returns (out: seq<Product>)
    ensures |out| == |ps|
    ensures forall i :: 0 <= i < |ps| ==> out[i] == ps[i].(slug := out[i].slug)
    ensures forall i, j :: 0 <= i < j < |out| ==> out[i].slug != out[j].slug
    ensures forall i :: 0 <= i < |ps| ==> FirstFree(CleanupSlugBase(ps[i].name), SlugSet(out[..i]), out[i].slug)
  {
    out := ps;
    var used: set<string> := {};
    for i := 0 to |ps|
      invariant Assigned(ps, out, i) && used == SlugSet(out[..i])
    {
      var base := CleanupSlugBase(out[i].name);
      var slug;
      ghost var n;
      slug, n := ProbeSlug(base, used);
      AssignStep(ps, out, i, base, slug, n);
      out := out[i := out[i].(slug := slug)];
      used := used + {slug};
    }
  }

  // ---------------------------------------------------------------------
  // Counting by category

  /** `p.get('category_slug', 'other')` */
  function CategoryOf(p: Product): string {
    match p.categorySlug
    case None => "other"
    case Some(c) => c
  }

  /** How many records fall in category c. */
  function CountIn(ps: seq<Product>, c: string): nat {
    if ps == [] then 0
    else CountIn(ps[..|ps| - 1], c) + (if CategoryOf(ps[|ps| - 1]) == c then 1 else 0)
  }

  /** The category of each record, in order. */
  function Categories(ps: seq<Product>): (r: seq<string>)
    ensures |r| == |ps| && forall i :: 0 <= i < |ps| ==> r[i] == CategoryOf(ps[i])
  {
    seq(|ps|, i requires 0 <= i < |ps| => CategoryOf(ps[i]))
  }

  /** The count of a category is its multiplicity among the records' categories. */
  lemma {:induction false} CountInIsMultiplicity(ps: seq<Product>, c: string)
    ensures CountIn(ps, c) == multiset(Categories(ps))[c]
    decreases |ps|
  {
    if ps != [] {
      var front := ps[..|ps| - 1];
      CountInIsMultiplicity(front, c);
      assert Categories(ps) == Categories(front) + [CategoryOf(ps[|ps| - 1])];
    }
  }

  /**
   * The summary loop `categories[cat] = categories.get(cat, 0) + 1`: every
   * category present is counted, and no other.
   */
  method CountCategories(ps: seq<Product>) returns (counts: map<string, nat>)
    ensures forall c :: c in counts <==> CountIn(ps, c) > 0
    ensures forall c :: c in counts ==> counts[c] == CountIn(ps, c)
  {
    counts := map[];
    for i := 0 to |ps|
      invariant forall c :: c in counts <==> CountIn(ps[..i], c) > 0
      invariant forall c :: c in counts ==> counts[c] == CountIn(ps[..i], c)
    {
      assert ps[..i + 1][..i] == ps[..i];
      var cat := CategoryOf(ps[i]);
      counts := counts[cat := (if cat in counts then counts[cat] else 0) + 1];
    }
    assert ps[..|ps|] == ps;
  }

  // ---------------------------------------------------------------------
  // The whole cleanup

  /** Changing only slugs keeps distinct keys distinct. */
  lemma RelabelKeepsKeys(ps: seq<Product>, qs: seq<Product>)
    requires |qs| == |ps| && forall i :: 0 <= i < |ps| ==> qs[i].name == ps[i].name
    requires DistinctKeys(ps, Key)
    ensures DistinctKeys(qs, Key)
  {
    forall i, j | 0 <= i < j < |qs| ensures Key(qs[i]) != Key(qs[j]) {
      assert Key(qs[i]) == Key(ps[i]) && Key(qs[j]) == Key(ps[j]);
    }
  }

  /**
   * cleanup_products on the list of records: the cleaned records, the
   * `count` stored beside them and the per-category summary. Every cleaned
   * record is complete, no two share a normalised name or a slug, and each
   * is a name-fixed input record with a new slug.
   */
  method CleanupProducts(products: seq<Product>) returns (cleaned: seq<Product>, count: nat, categories: map<string, nat>)
    ensures count == |cleaned| <= |products|
    ensures forall i :: 0 <= i < |cleaned| ==> IsCompleteProduct(cleaned[i])
    ensures DistinctKeys(cleaned, Key)
    ensures forall i, j :: 0 <= i < j < |cleaned| ==> cleaned[i].slug != cleaned[j].slug
    ensures forall i :: 0 <= i < |cleaned| ==> cleaned[i].(slug := "") in Relabel(FixNames(products), "")
    ensures forall j :: 0 <= j < |products| && IsCompleteProduct(FixNames(products)[j]) ==>
      FindKey(cleaned, Key, Key(FixNames(products)[j])) >= 0
    ensures var unique := Dedup(CompleteOnly(FixNames(products)), Key);
      |cleaned| == |unique| && forall i :: 0 <= i < |cleaned| ==> cleaned[i] == unique[i].(slug := cleaned[i].slug)
    ensures forall i :: 0 <= i < |cleaned| ==> FirstFree(CleanupSlugBase(cleaned[i].name), SlugSet(cleaned[..i]), cleaned[i].slug)
    ensures forall c :: c in categories ==> categories[c] == CountIn(cleaned, c)
    ensures forall c :: c in categories <==> CountIn(cleaned, c) > 0
  {
    var fixed := FixNames(products);
    var complete := CompleteOnly(fixed);
    assert |complete| <= |fixed| == |products|;
    var unique := DedupProducts(complete, Key);
    DedupKeeps(complete, Key);
    cleaned := AssignSlugs(unique);
    RelabelKeepsKeys(unique, cleaned);
    assert forall i :: 0 <= i < |unique| ==> Key(cleaned[i]) == Key(unique[i]);
    KeysRelabelled(complete, unique, cleaned, Key);
    KeysSurvive(fixed, complete, cleaned, Key);
    CleanedFromFixed(fixed, complete, unique, cleaned);
    count := |cleaned|;
    categories := CountCategories(cleaned);
  }

  /** What the cleanup needs of the merge: distinct keys, no new records, no key lost. */
  lemma DedupKeeps(ps: seq<Product>, key: Product -> string)
    ensures var unique := Dedup(ps, key);
      && DistinctKeys(unique, key) && |unique| <= |ps|
      && (forall i :: 0 <= i < |unique| ==> unique[i] in ps)
      && (forall j :: 0 <= j < |ps| ==> FindKey(unique, key, key(ps[j])) >= 0)
  {
    DedupMerged(ps, key);
  }

  /** Records kept from complete name-fixed records, relabelled, are complete name-fixed records up to the slug. */
  lemma CleanedFromFixed(fixed: seq<Product>, complete: seq<Product>, unique: seq<Product>, cleaned: seq<Product>)
    requires forall i :: 0 <= i < |complete| ==> IsCompleteProduct(complete[i]) && complete[i] in fixed
    requires forall i :: 0 <= i < |unique| ==> unique[i] in complete
    requires |cleaned| == |unique| && forall i :: 0 <= i < |unique| ==> cleaned[i] == unique[i].(slug := cleaned[i].slug)
    ensures forall i :: 0 <= i < |cleaned| ==> IsCompleteProduct(cleaned[i]) && cleaned[i].(slug := "") in Relabel(fixed, "")
  {
    forall i | 0 <= i < |cleaned| ensures IsCompleteProduct(cleaned[i]) && cleaned[i].(slug := "") in Relabel(fixed, "") {
      assert unique[i] in complete;
      RelabelMember(fixed, unique[i], "");
      assert cleaned[i].(slug := "") == unique[i].(slug := "");
    }
  }

  /** Keys held by the records of a list stay held when only the slugs change. */
  lemma KeysRelabelled(complete: seq<Product>, unique: seq<Product>, cleaned: seq<Product>, key: Product -> string)
    requires forall j :: 0 <= j < |complete| ==> FindKey(unique, key, key(complete[j])) >= 0
    requires |cleaned| == |unique| && forall i :: 0 <= i < |unique| ==> key(cleaned[i]) == key(unique[i])
    ensures forall j :: 0 <= j < |complete| ==> FindKey(cleaned, key, key(complete[j])) >= 0
  {
    forall j | 0 <= j < |complete| ensures FindKey(cleaned, key, key(complete[j])) >= 0 {
      FindKeySameKeys(unique, cleaned, key, key(complete[j]));
    }
  }

  /**
   * Every complete name-fixed record has its key held by some cleaned
   * record, when every complete record's key is.
   */
  lemma KeysSurvive(fixed: seq<Product>, complete: seq<Product>, cleaned: seq<Product>, key: Product -> string)
    requires forall j :: 0 <= j < |fixed| && IsCompleteProduct(fixed[j]) ==> fixed[j] in complete
    requires forall m :: 0 <= m < |complete| ==> FindKey(cleaned, key, key(complete[m])) >= 0
    ensures forall j :: 0 <= j < |fixed| && IsCompleteProduct(fixed[j]) ==> FindKey(cleaned, key, key(fixed[j])) >= 0
  {
    forall j | 0 <= j < |fixed| && IsCompleteProduct(fixed[j]) ensures FindKey(cleaned, key, key(fixed[j])) >= 0 {
      var m :| 0 <= m < |complete| && complete[m] == fixed[j];
    }
  }

  /** Every record with its slug replaced by `slug`. */
  function Relabel(ps: seq<Product>, slug: string): (r: seq<Product>)
    ensures |r| == |ps| && forall i :: 0 <= i < |ps| ==> r[i] == ps[i].(slug := slug)
  {
    seq(|ps|, i requires 0 <= i < |ps| => ps[i].(slug := slug))
  }

  lemma RelabelMember(ps: seq<Product>, p: Product, slug: string)
    requires p in ps
    ensures p.(slug := slug) in Relabel(ps, slug)
  {
    var i :| 0 <= i < |ps| && ps[i] == p;
    assert Relabel(ps, slug)[i] == p.(slug := slug);
  }
}
