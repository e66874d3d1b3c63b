/**
 * scripts/fetch_products.py: choosing a category, deciding whether an Open
 * Food Facts record is usable, converting it into a product record with a
 * unique slug, and the loop that gathers products from search results.
 * The search results are given as batches, one per brand searched.
 */
module Fetch {
  import opened Strings
  import opened Products
  import opened NameFix
  import opened Slugs

  /**
   * The fields of an Open Food Facts record that the fetcher reads; None
   * stands for a missing key. Nutriment values are numbers.
   */
  datatype OffProduct = OffProduct(
    code: Option<string>,
    productName: Option<string>,
    brands: Option<string>,
    categories: Option<string>,
    nutriments: map<string, real>,
    imageUrl: Option<string>)

  /** `d.get(key, '')` for a text field. */
  function OrEmpty(v: Option<string>): string {
    match v
    case None => ""
    case Some(s) => s
  }

  // ---------------------------------------------------------------------
  // Categories

  /** CATEGORY_MAP, keyword to category, in its insertion order. */
  const CategoryMap: seq<(string, string)> := [
    ("noodles", "ready-to-eat"), ("instant", "ready-to-eat"),
    ("biscuits", "biscuits"), ("cookies", "biscuits"),
    ("chips", "namkeen"), ("snacks", "namkeen"), ("namkeen", "namkeen"),
    ("beverages", "drinks"), ("drinks", "drinks"), ("juice", "drinks"),
    ("soda", "drinks"), ("cola", "drinks"), ("soft drink", "drinks"),
    ("chocolate", "meetha"), ("candy", "meetha"), ("sweets", "meetha"),
    ("dairy", "dairy"), ("milk", "dairy"), ("butter", "dairy"),
    ("cheese", "dairy"), ("yogurt", "dairy"), ("curd", "dairy"),
    ("cereal", "nashta"), ("breakfast", "nashta"), ("oats", "nashta"),
    ("muesli", "nashta"), ("spread", "nashta"), ("jam", "nashta"),
    ("health drink", "bachon-ke-liye"), ("malt", "bachon-ke-liye")]

  /** The category when no keyword matches. */
  const DefaultCategory := "namkeen"

  /** Whether keyword i occurs in the lower-cased categories or name. */
  predicate KeywordIn(i: int, categories: string, name: string)
    requires 0 <= i < |CategoryMap|
  {
    Contains(categories, CategoryMap[i].0) || Contains(name, CategoryMap[i].0)
  }

  /** The scan of CATEGORY_MAP from entry i, returning at the first keyword found. */
  function CategoryFrom(categories: string, name: string, i: nat): string
    requires i <= |CategoryMap|
    decreases |CategoryMap| - i
  {
    if i == |CategoryMap| then DefaultCategory
    else if KeywordIn(i, categories, name) then CategoryMap[i].1
    else CategoryFrom(categories, name, i + 1)
  }

  /** get_category(product_data) */
  function GetCategory(p: OffProduct): string {
    CategoryFrom(Lower(OrEmpty(p.categories)), Lower(OrEmpty(p.productName)), 0)
  }

  /** The scan from i returns the default when no keyword at or after i occurs. */
  lemma {:induction false} CategoryFromNone(categories: string, name: string, i: nat)
    requires i <= |CategoryMap|
    requires forall j :: i <= j < |CategoryMap| ==> !KeywordIn(j, categories, name)
    ensures CategoryFrom(categories, name, i) == DefaultCategory
    decreases |CategoryMap| - i
  {
    if i < |CategoryMap| {
      CategoryFromNone(categories, name, i + 1);
    }
  }

  /** The scan from i returns the category of the first keyword at or after i that occurs. */
  lemma {:induction false} CategoryFromMatch(categories: string, name: string, i: nat, j: int)
    requires i <= j < |CategoryMap| && KeywordIn(j, categories, name)
    requires forall m :: i <= m < j ==> !KeywordIn(m, categories, name)
    ensures CategoryFrom(categories, name, i) == CategoryMap[j].1
    decreases j - i
  {
    if i < j {
      assert !KeywordIn(i, categories, name);
      CategoryFromMatch(categories, name, i + 1, j);
    }
  }

  /**
   * get_category returns the category of the first keyword, in
   * CATEGORY_MAP order, found in the lower-cased categories or product
   * name, and "namkeen" when there is none.
   */
  lemma GetCategoryFirstMatch(p: OffProduct)
    ensures var cats, name := Lower(OrEmpty(p.categories)), Lower(OrEmpty(p.productName));
      && ((forall j :: 0 <= j < |CategoryMap| ==> !KeywordIn(j, cats, name)) ==> GetCategory(p) == DefaultCategory)
      && (forall j :: (0 <= j < |CategoryMap| && KeywordIn(j, cats, name) &&
            forall m :: 0 <= m < j ==> !KeywordIn(m, cats, name)) ==> GetCategory(p) == CategoryMap[j].1)
  {
    var cats, name := Lower(OrEmpty(p.categories)), Lower(OrEmpty(p.productName));
    if forall j :: 0 <= j < |CategoryMap| ==> !KeywordIn(j, cats, name) {
      CategoryFromNone(cats, name, 0);
    }
    forall j | 0 <= j < |CategoryMap| && KeywordIn(j, cats, name) &&
        forall m :: 0 <= m < j ==> !KeywordIn(m, cats, name)
      ensures GetCategory(p) == CategoryMap[j].1
    {
      CategoryFromMatch(cats, name, 0, j);
    }
  }

  /** The category is always one of the map's values or the default. */
  lemma {:induction false} CategoryFromIsKnown(categories: string, name: string, i: nat)
    requires i <= |CategoryMap|
    ensures var c := CategoryFrom(categories, name, i);
      c == DefaultCategory || exists j :: 0 <= j < |CategoryMap| && c == CategoryMap[j].1
    decreases |CategoryMap| - i
  {
    if i < |CategoryMap| {
      CategoryFromIsKnown(categories, name, i + 1);
    }
  }

  // ---------------------------------------------------------------------
  // Validity

  /** `nutriments.get(key)` is truthy: present and not zero. */
  predicate Truthy(nutriments: map<string, real>, key: string) {
    key in nutriments && nutriments[key] != 0.0
  }

  /** The four per-100g nutriments of which one is enough. */
  const OtherNutriments: seq<string> := ["proteins_100g", "sugars_100g", "sodium_100g", "fat_100g"]

  /** is_valid_product(product): a name, and energy or one of the other four. */
  predicate IsValidProduct(p: OffProduct) {
    if p.productName == None || p.productName.value == "" then false
    else
      var m := p.nutriments;
      var hasEnergy := Truthy(m, "energy-kcal_100g") || Truthy(m, "energy_100g");
      var hasOther := Truthy(m, "proteins_100g") || Truthy(m, "sugars_100g") ||
        Truthy(m, "sodium_100g") || Truthy(m, "fat_100g");
      hasEnergy || hasOther
  }

  /** The six nutriment keys is_valid_product looks at. */
  const ValidityKeys: seq<string> := ["energy-kcal_100g", "energy_100g"] + OtherNutriments

  /**
   * Validity reads no nutriment outside the six: changing any other entry
   * of the nutriments leaves it as it was.
   */
  lemma ValidIgnoresOtherKeys(p: OffProduct, k: string, v: real)
    requires k !in ValidityKeys
    ensures IsValidProduct(p.(nutriments := p.nutriments[k := v])) == IsValidProduct(p)
  {
    assert ValidityKeys == ["energy-kcal_100g", "energy_100g", "proteins_100g", "sugars_100g", "sodium_100g", "fat_100g"];
  }

  /**
   * Energy and another nutrient are not both needed: a named record whose
   * only nutriment is a non-zero protein value is valid, and so is one whose
   * only nutriment is a non-zero energy value.
   */
  lemma EitherSuffices(name: string, x: real)
    requires name != [] && x != 0.0
    ensures IsValidProduct(OffProduct(None, Some(name), None, None, map["proteins_100g" := x], None))
    ensures IsValidProduct(OffProduct(None, Some(name), None, None, map["energy_100g" := x], None))
  {
  }

  /** A record without a name, or whose nutriments are all zero, is not valid. */
  lemma InvalidWithoutNameOrData(p: OffProduct)
    requires p.productName == None || p.productName == Some("") || forall k :: k in p.nutriments ==> p.nutriments[k] == 0.0
    ensures !IsValidProduct(p)
  {
  }

  // ---------------------------------------------------------------------
  // Brand and name

  /** `s.split(sep)[0]`: everything before the first separator. */
  function FirstField(s: string, sep: char): (r: string)
    ensures StartsWith(s, r) && forall i :: 0 <= i < |r| ==> r[i] != sep
    ensures |r| < |s| ==> s[|r|] == sep
  {
    if s == [] || s[0] == sep then [] else [s[0]] + FirstField(s[1..], sep)
  }

  /** The brand: the first comma-separated entry of `brands`, stripped, or "Unknown". */
  function BrandOf(p: OffProduct): string {
    match p.brands
    case Some(b) => if b != "" then Trim(FirstField(b, ','), IsSpace) else "Unknown"
    case None => "Unknown"
  }

  /** The product name as given, stripped. */
  function NameOf(p: OffProduct): string {
    Trim(OrEmpty(p.productName), IsSpace)
  }

  /** `f"{brand} {name}".strip()` after the brand prefix is dropped from the name. */
  function FullName(brand: string, name: string): string {
    Trim(brand + " " + StripBrandPrefix(name, brand), IsSpace)
  }

  /**
   * A name written as the brand (in any case), spaces or hyphens, and the
   * rest becomes "brand rest": the brand is not doubled.
   */
  lemma FullNameOfBranded(brand: string, written: string, sep: string, rest: string)
    requires brand != [] && !IsSpace(brand[0]) && Lower(written) == Lower(brand)
    requires forall i :: 0 <= i < |sep| ==> IsBlankOrHyphen(sep[i])
    requires rest != [] && !IsBlankOrHyphen(rest[0]) && !IsBlankOrHyphen(rest[|rest| - 1])
    requires !IsSpace(rest[|rest| - 1])
    ensures FullName(brand, written + sep + rest) == brand + " " + rest
  {
    StripBrandPrefixOf(brand, written, sep, rest);
    var s := brand + " " + rest;
    assert s[0] == brand[0] && s[|s| - 1] == rest[|rest| - 1];
    TrimNoop(s, IsSpace);
  }

  /** Without the brand at its start, the name follows the brand unchanged. */
  lemma FullNameUnbranded(brand: string, name: string)
    requires !HasBrandPrefix(name, brand)
    requires brand != [] && !IsSpace(brand[0])
    requires name != [] && !IsSpace(name[|name| - 1])
    ensures FullName(brand, name) == brand + " " + name
  {
    var s := brand + " " + name;
    assert s[0] == brand[0] && s[|s| - 1] == name[|name| - 1];
    TrimNoop(s, IsSpace);
  }

  // ---------------------------------------------------------------------
  // Flags

  const HighSodium := "High Sodium"
  const HighSugar := "High Sugar"
  const HighSaturatedFat := "High Saturated Fat"

  /** The flags in the order they are added. */
  const FlagOrder: seq<string> := [HighSodium, HighSugar, HighSaturatedFat]

  /** Flags drawn from FlagOrder and listed in its order. */
  predicate InFlagOrder(flags: seq<string>) {
    forall i, j :: 0 <= i < j < |flags| ==>
      exists a, b :: 0 <= a < b < |FlagOrder| && flags[i] == FlagOrder[a] && flags[j] == FlagOrder[b]
  }

  /**
   * The flags of process_product: each is present exactly when its
   * threshold is exceeded, in the fixed order.
   */
  method Flags(nutrients: map<string, real>) returns (flags: seq<string>)
    ensures HighSodium in flags <==> Get(nutrients, "sodium_mg") > 500.0
    ensures HighSugar in flags <==> Get(nutrients, "sugar_g") > 15.0
    ensures HighSaturatedFat in flags <==> Get(nutrients, "saturated_fat_g") > 5.0
    ensures forall i :: 0 <= i < |flags| ==> flags[i] in FlagOrder
    ensures InFlagOrder(flags)
  {
    flags := [];
    if Get(nutrients, "sodium_mg") > 500.0 {
      flags := flags + [HighSodium];
    }
    if Get(nutrients, "sugar_g") > 15.0 {
      flags := flags + [HighSugar];
    }
    if Get(nutrients, "saturated_fat_g") > 5.0 {
      flags := flags + [HighSaturatedFat];
    }
    assert FlagOrder[0] == HighSodium && FlagOrder[1] == HighSugar && FlagOrder[2] == HighSaturatedFat;
  }

  // ---------------------------------------------------------------------
  // Unique slugs

  /** The `existing_slugs` set that process_product grows. */
  class SlugRegistry {
    var used: set<string>

    constructor ()
      ensures used == {}
    {
      used := {};
    }

    /**
     * The probing loop and `existing_slugs.add(slug)`: the first free
     * candidate of `base` is claimed, and only it is added.
     */
    method Claim(base: string) returns (slug: string)
      modifies this
      ensures slug !in old(used) && used == old(used) + {slug}
      ensures exists n: nat :: slug == Candidate(base, n) && forall m :: 0 <= m < n ==> Candidate(base, m) in old(used)
    {
      ghost var n;
      slug, n := ProbeSlug(base, used);
      used := used + {slug};
    }
  }

  // ---------------------------------------------------------------------
  // Converting a record

  const Source := "Open Food Facts"
  const ProductUrlBase := "https://world.openfoodfacts.org/product/"

  /**
   * What process_product makes of a record, apart from the slug, which
   * depends on the slugs already taken: `extract` stands for
   * extract_nutrients.
   */
  ghost predicate Converted(off: OffProduct, p: Product, extract: map<string, real> -> map<string, real>) {
    var brand := BrandOf(off);
    var category := GetCategory(off);
    && p.name == FullName(brand, NameOf(off))
    && p.brand == brand
    && p.id == (if off.code.Some? then off.code.value else p.slug)
    && p.category == Title(ReplaceChar(category, '-', ' '))
    && p.categorySlug == Some(category)
    && p.nutrients == extract(off.nutriments)
    && (HighSodium in p.flags <==> Get(p.nutrients, "sodium_mg") > 500.0)
    && (HighSugar in p.flags <==> Get(p.nutrients, "sugar_g") > 15.0)
    && (HighSaturatedFat in p.flags <==> Get(p.nutrients, "saturated_fat_g") > 5.0)
    && InFlagOrder(p.flags)
    && p.imageUrl == OrEmpty(off.imageUrl)
    && p.source == Source
    && p.sourceUrl == ProductUrlBase + OrEmpty(off.code)
  }

  /**
   * process_product(off_product, existing_slugs): the record built from
   * `off`, with the first free candidate of the slug of its full name,
   * which is added to the registry.
   */
  method ProcessProduct(off: OffProduct, registry: SlugRegistry, extract: map<string, real> -> map<string, real>)
    returns (p: Product)
    modifies registry
    ensures Converted(off, p, extract)
    ensures p.slug !in old(registry.used) && registry.used == old(registry.used) + {p.slug}
    ensures exists n: nat ::
      (p.slug == Candidate(Slugify(p.name), n) &&
       forall m :: 0 <= m < n ==> Candidate(Slugify(p.name), m) in old(registry.used))
  {
    var name := NameOf(off);
    var brand := BrandOf(off);
    if HasBrandPrefix(name, brand) {
      name := Trim(name[|brand|..], IsBlankOrHyphen);
    }
    assert name == StripBrandPrefix(NameOf(off), brand);
    var fullName := Trim(brand + " " + name, IsSpace);
    var slug := registry.Claim(Slugify(fullName));
    var nutrients := extract(off.nutriments);
    assert nutrients == extract(off.nutriments);
    var category := GetCategory(off);
    var flags := Flags(nutrients);
    var id := if off.code.Some? then off.code.value else slug;
    p := Product(id, slug, fullName, brand, Title(ReplaceChar(category, '-', ' ')), Some(category),
      nutrients, flags, OrEmpty(off.imageUrl), Source, ProductUrlBase + OrEmpty(off.code));
  }

  // ---------------------------------------------------------------------
  // Gathering products

  /** The search results of all brands, one after the other. */
  function Flatten(batches: seq<seq<OffProduct>>): seq<OffProduct> {
    if batches == [] then [] else Flatten(batches[..|batches| - 1]) + batches[|batches| - 1]
  }

  /** The codes of a list of records (a missing code counts as one value). */
  function Codes(offs: seq<OffProduct>): set<Option<string>> {
    set i | 0 <= i < |offs| :: offs[i].code
  }

  /**
   * The records the loop converts when no limit stops it: those whose code
   * has not been seen before and that are valid. A code is seen as soon as
   * its record is met, valid or not.
   */
  function Admitted(offs: seq<OffProduct>): seq<OffProduct> {
    if offs == [] then []
    else
      var front, o := offs[..|offs| - 1], offs[|offs| - 1];
      Admitted(front) + (if o.code !in Codes(front) && IsValidProduct(o) then [o] else [])
  }

  /** Reading one more record adds its code, and admits it when its code is new and it is valid. */
  lemma AdmittedSnoc(read: seq<OffProduct>, o: OffProduct)
    ensures Codes(read + [o]) == Codes(read) + {o.code}
    ensures Admitted(read + [o]) ==
      Admitted(read) + (if o.code !in Codes(read) && IsValidProduct(o) then [o] else [])
  {
    var s := read + [o];
    assert s[..|s| - 1] == read;
    forall c | c in Codes(s) ensures c in Codes(read) + {o.code} {
      var i :| 0 <= i < |s| && s[i].code == c;
      if i < |read| {
        assert read[i].code == c;
      }
    }
    forall c | c in Codes(read) ensures c in Codes(s) {
      var i :| 0 <= i < |read| && read[i].code == c;
      assert s[i].code == c;
    }
    assert s[|read|].code == o.code;
  }

  /** Admitted records are valid and have distinct codes. */
  lemma {:induction false} AdmittedShape(offs: seq<OffProduct>)
    ensures forall i :: 0 <= i < |Admitted(offs)| ==> IsValidProduct(Admitted(offs)[i])
    ensures forall i :: 0 <= i < |Admitted(offs)| ==> Admitted(offs)[i].code in Codes(offs)
    ensures forall i, j :: 0 <= i < j < |Admitted(offs)| ==> Admitted(offs)[i].code != Admitted(offs)[j].code
    decreases |offs|
  {
    if offs != [] {
      var front, o := offs[..|offs| - 1], offs[|offs| - 1];
      AdmittedShape(front);
      assert Codes(front) <= Codes(offs) by {
        forall c | c in Codes(front) ensures c in Codes(offs) {
          var i :| 0 <= i < |front| && front[i].code == c;
          assert offs[i].code == c;
        }
      }
      assert o.code in Codes(offs) by {
        assert offs[|offs| - 1].code == o.code;
      }
    }
  }

  /** Every admitted record is valid and is the first record read with its code. */
  lemma {:induction false} AdmittedAreFirstValid(offs: seq<OffProduct>)
    ensures forall r :: r in Admitted(offs) ==>
      exists j :: 0 <= j < |offs| && offs[j] == r && r.code !in Codes(offs[..j]) && IsValidProduct(r)
    decreases |offs|
  {
    if offs != [] {
      var front, o := offs[..|offs| - 1], offs[|offs| - 1];
      AdmittedAreFirstValid(front);
      forall r | r in Admitted(offs)
        ensures exists j :: 0 <= j < |offs| && offs[j] == r && r.code !in Codes(offs[..j]) && IsValidProduct(r)
      {
        if r in Admitted(front) {
          var j :| 0 <= j < |front| && front[j] == r && r.code !in Codes(front[..j]) && IsValidProduct(r);
          assert offs[j] == r && offs[..j] == front[..j];
        } else {
          assert offs[|front|] == o && offs[..|front|] == front;
        }
      }
    }
  }

  /**
   * A code is seen before its record is checked: when the first record
   * with a code is invalid, no record with that code is ever admitted.
   */
  lemma FirstInvalidBlocksCode(offs: seq<OffProduct>, i: int)
    requires 0 <= i < |offs| && offs[i].code !in Codes(offs[..i]) && !IsValidProduct(offs[i])
    ensures forall r :: r in Admitted(offs) ==> r.code != offs[i].code
  {
    AdmittedAreFirstValid(offs);
    forall r | r in Admitted(offs) ensures r.code != offs[i].code {
      var j :| 0 <= j < |offs| && offs[j] == r && r.code !in Codes(offs[..j]) && IsValidProduct(r);
      assert j != i;
      if j < i {
        CodeOfPrefix(offs, j, i);
      } else {
        CodeOfPrefix(offs, i, j);
      }
    }
  }

  lemma CodeOfPrefix(offs: seq<OffProduct>, j: int, n: int)
    requires 0 <= j < n <= |offs|
    ensures offs[j].code in Codes(offs[..n])
  {
    assert offs[..n][j] == offs[j];
  }

  /** Reading more records only adds admitted records at the end. */
  lemma {:induction false} AdmittedPrefix(offs: seq<OffProduct>, n: nat)
    requires n <= |offs|
    ensures Admitted(offs[..n]) <= Admitted(offs)
    decreases |offs| - n
  {
    if n < |offs| {
      AdmittedPrefix(offs, n + 1);
      assert offs[..n + 1][..n] == offs[..n];
    } else {
      assert offs[..n] == offs;
    }
  }

  function Min(a: int, b: int): int { if a < b then a else b }

  /**
   * The state of the gathering loop after reading `read`: one product per
   * admitted record, related to it by `conv`, with distinct slugs all taken
   * in `used`.
   */
  ghost predicate Gathered(products: seq<Product>, read: seq<OffProduct>, used: set<string>,
    conv: (OffProduct, Product) -> bool)
  {
    && |products| == |Admitted(read)|
    && (forall i :: 0 <= i < |products| ==> conv(Admitted(read)[i], products[i]))
    && (forall i :: 0 <= i < |products| ==> products[i].slug in used)
    && (forall i, j :: 0 <= i < j < |products| ==> products[i].slug != products[j].slug)
  }

  /** A record whose code was seen, or that is invalid, adds no product. */
  lemma GatherSkip(products: seq<Product>, read: seq<OffProduct>, o: OffProduct, used: set<string>,
    conv: (OffProduct, Product) -> bool)
    requires Gathered(products, read, used, conv)
    requires o.code in Codes(read) || !IsValidProduct(o)
    ensures Gathered(products, read + [o], used, conv)
  {
    AdmittedSnoc(read, o);
  }

  /** A new valid record adds its conversion, whose slug was free. */
  lemma GatherAdd(products: seq<Product>, read: seq<OffProduct>, o: OffProduct, p: Product,
    used: set<string>, conv: (OffProduct, Product) -> bool)
    requires Gathered(products, read, used, conv)
    requires o.code !in Codes(read) && IsValidProduct(o)
    requires conv(o, p) && p.slug !in used
    ensures Gathered(products + [p], read + [o], used + {p.slug}, conv)
  {
    AdmittedSnoc(read, o);
    var adm, ps := Admitted(read + [o]), products + [p];
    assert adm == Admitted(read) + [o];
    forall i | 0 <= i < |ps| ensures conv(adm[i], ps[i]) {
      if i < |products| {
        assert adm[i] == Admitted(read)[i] && ps[i] == products[i];
      }
    }
  }

  /** What was gathered from a prefix of the records is a prefix of what all of them admit. */
  lemma GatheredPrefix(products: seq<Product>, read: seq<OffProduct>, all: seq<OffProduct>,
    used: set<string>, conv: (OffProduct, Product) -> bool)
    requires Gathered(products, read, used, conv) && read <= all
    ensures |products| <= |Admitted(all)|
    ensures read == all ==> |products| == |Admitted(all)|
    ensures forall i :: 0 <= i < |products| ==> conv(Admitted(all)[i], products[i])
  {
    AdmittedPrefix(all, |read|);
    assert all[..|read|] == read;
    forall i | 0 <= i < |products| ensures conv(Admitted(all)[i], products[i]) {
      assert Admitted(read)[i] == Admitted(all)[i];
    }
  }

  /**
   * fetch_indian_products over given search results: the products are
   * the conversions of the first `limit` admitted records, and no two
   * share a slug.
   */
  method FetchIndianProducts(batches: seq<seq<OffProduct>>, limit: int, extract: map<string, real> -> map<string, real>)
    returns (products: seq<Product>)
    ensures |products| == Min(if limit < 0 then 0 else limit, |Admitted(Flatten(batches))|)
    ensures forall i :: 0 <= i < |products| ==> Converted(Admitted(Flatten(batches))[i], products[i], extract)
    ensures forall i, j :: 0 <= i < j < |products| ==> products[i].slug != products[j].slug
  {
    ghost var conv := (o, p) => Converted(o, p, extract);
    products := [];
    var registry := new SlugRegistry();
    var seenCodes: set<Option<string>> := {};
    ghost var read: seq<OffProduct> := [];
    var b := 0;
    var full := false;
    while b < |batches| && !full
      invariant 0 <= b <= |batches|
      invariant full ==> |products| >= limit
      invariant !full ==> read == Flatten(batches[..b])
      invariant read <= Flatten(batches)
      invariant seenCodes == Codes(read)
      invariant |products| <= if limit < 0 then 0 else limit
      invariant Gathered(products, read, registry.used, conv)
      decreases |batches| - b, if full then 0 else 1
    {
      if |products| >= limit {
        full := true;
      } else {
        var results := batches[b];
        var k := 0;
        while k < |results| && !full
          invariant 0 <= k <= |results|
          invariant full ==> |products| >= limit
          invariant !full ==> read == Flatten(batches[..b]) + results[..k]
          invariant read <= Flatten(batches)
          invariant seenCodes == Codes(read)
          invariant |products| <= if limit < 0 then 0 else limit
          invariant Gathered(products, read, registry.used, conv)
          decreases |results| - k, if full then 0 else 1
        {
          if |products| >= limit {
            full := true;
          } else {
            var off := results[k];
            ReadOne(batches, b, k, read);
            AdmittedSnoc(read, off);
            if off.code !in seenCodes && IsValidProduct(off) {
              seenCodes := seenCodes + {off.code};
              ghost var used := registry.used;
              var p := ProcessProduct(off, registry, extract);
              GatherAdd(products, read, off, p, used, conv);
              products := products + [p];
            } else {
              seenCodes := seenCodes + {off.code};
              GatherSkip(products, read, off, registry.used, conv);
            }
            read := read + [off];
            k := k + 1;
          }
        }
        if !full {
          assert results[..k] == results;
          FlattenSnoc(batches, b);
          b := b + 1;
        }
      }
    }
    if !full {
      assert batches[..b] == batches;
    }
    GatheredPrefix(products, read, Flatten(batches), registry.used, conv);
  }

  lemma FlattenSnoc(batches: seq<seq<OffProduct>>, b: int)
    requires 0 <= b < |batches|
    ensures Flatten(batches[..b + 1]) == Flatten(batches[..b]) + batches[b]
  {
    assert batches[..b + 1][..b] == batches[..b];
  }

  /** The record after those read so far is the next one of the flattened results. */
  lemma ReadOne(batches: seq<seq<OffProduct>>, b: int, k: int, read: seq<OffProduct>)
    requires 0 <= b < |batches| && 0 <= k < |batches[b]|
    requires read == Flatten(batches[..b]) + batches[b][..k]
    ensures read + [batches[b][k]] == Flatten(batches[..b]) + batches[b][..k + 1]
    ensures read + [batches[b][k]] <= Flatten(batches)
  {
    FlattenPrefix(batches, b + 1);
    FlattenSnoc(batches, b);
    assert batches[b][..k + 1] == batches[b][..k] + [batches[b][k]];
  }

  /** Flattening a prefix of the batches gives a prefix of the flattened batches. */
  lemma {:induction false} FlattenPrefix(batches: seq<seq<OffProduct>>, n: nat)
    requires n <= |batches|
    ensures Flatten(batches[..n]) <= Flatten(batches)
    decreases |batches| - n
  {
    if n < |batches| {
      FlattenPrefix(batches, n + 1);
      FlattenSnoc(batches, n);
    } else {
      assert batches[..n] == batches;
    }
  }
}
