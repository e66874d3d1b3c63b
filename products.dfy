/**
 * The product record both scripts pass around, and the completeness tests
 * of scripts/cleanup_products.py over its nutrient values.
 */
module Products {

  datatype Option<T> = None | Some(value: T)

  /**
   * A product record as process_product builds it and cleanup_products
   * reads it back. Nutrient values are the numbers of the `nutrients`
   * object; `categorySlug` is None when the key is absent.
   */
  datatype Product = Product(
    id: string,
    slug: string,
    name: string,
    brand: string,
    category: string,
    categorySlug: Option<string>,
    nutrients: map<string, real>,
    flags: seq<string>,
    imageUrl: string,
    source: string,
    sourceUrl: string)

  /** `nutrients.get(key, 0)` */
  function Get(nutrients: map<string, real>, key: string): real {
    if key in nutrients then nutrients[key] else 0.0
  }

  /** The five nutrients of which at least two must be positive. */
  const SecondaryNutrients: seq<string> :=
    ["protein_g", "sugar_g", "sodium_mg", "total_fat_g", "carbohydrates_g"]

  /** `sum(1 for n in [nutrients.get(k, 0) for k in keys] if n > 0)` */
  function CountPositive(nutrients: map<string, real>, keys: seq<string>): nat {
    if keys == [] then 0
    else (if Get(nutrients, keys[0]) > 0.0 then 1 else 0) + CountPositive(nutrients, keys[1..])
  }

  /** The keys among `keys` whose value is positive. */
  function PositiveKeys(nutrients: map<string, real>, keys: seq<string>): set<string> {
    set k | k in keys && Get(nutrients, k) > 0.0
  }

  /** Over distinct keys, the count is the number of keys with a positive value. */
  lemma {:induction false} CountPositiveIsCardinality(nutrients: map<string, real>, keys: seq<string>)
    requires forall i, j :: 0 <= i < j < |keys| ==> keys[i] != keys[j]
    ensures CountPositive(nutrients, keys) == |PositiveKeys(nutrients, keys)|
  {
    if keys != [] {
      CountPositiveIsCardinality(nutrients, keys[1..]);
      var rest := PositiveKeys(nutrients, keys[1..]);
      assert keys[0] !in keys[1..];
      if Get(nutrients, keys[0]) > 0.0 {
        assert PositiveKeys(nutrients, keys) == {keys[0]} + rest;
      } else {
        assert PositiveKeys(nutrients, keys) == rest;
      }
    }
  }

  /** is_complete_product(product) */
  predicate IsCompleteProduct(p: Product) {
    var calories := Get(p.nutrients, "energy_kcal");
    if calories < 10.0 || calories > 900.0 then false
    else if CountPositive(p.nutrients, SecondaryNutrients) < 2 then false
    else |p.name| >= 5
  }

  /**
   * A product is complete exactly when its calories lie in [10, 900], at
   * least two of the five secondary nutrients are positive (a missing one
   * reads as 0) and its name has at least five characters.
   */
  lemma CompleteExactly(p: Product)
    ensures IsCompleteProduct(p) <==>
      && 10.0 <= Get(p.nutrients, "energy_kcal") <= 900.0
      && |PositiveKeys(p.nutrients, SecondaryNutrients)| >= 2
      && |p.name| >= 5
  {
    CountPositiveIsCardinality(p.nutrients, SecondaryNutrients);
  }

  /**
   * `sum(1 for v in nutrients.values() if v > 0)`: how many nutrient values
   * are positive, the measure of how complete a record is.
   */
  function PositiveCount(nutrients: map<string, real>): nat {
    |set k | k in nutrients && nutrients[k] > 0.0|
  }
}
