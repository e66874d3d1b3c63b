# Product record pipeline of Mizan, in Dafny

This project models the two Python scripts that build Mizan's product
catalogue.

`scripts/fetch_products.py` turns Open Food Facts search results into
product records:

- it chooses a category from a keyword map;
- it rejects records without a name or nutrient data;
- it builds the brand and the display name;
- it gives each record a unique URL slug;
- it sets the High Sodium, High Sugar and High Saturated Fat flags;
- it gathers records up to a limit, skipping codes already seen.

`scripts/cleanup_products.py` then cleans the list:

- it rewrites names (brand prefix, product codes, size tokens, spacing,
  capitalisation);
- it drops incomplete records;
- it merges records with the same normalised name, keeping the one with
  more positive nutrient values;
- it assigns slugs again and counts records per category.

The modules follow the scripts:

| file | module | what it holds |
|---|---|---|
| strings.dfy | `Strings` | ASCII character classes, `lower`, `strip`, `split`/`join`, and the character-class regex substitutions written as scanners |
| products.dfy | `Products` | the product record and `is_complete_product` |
| names.dfy | `Names` | `normalize_name`, the duplicate-detection key |
| namefix.dfy | `NameFix` | `fix_product_name` and the brand-prefix step it shares with `process_product` |
| slugs.dfy | `Slugs` | `slugify`, the slug base of the cleanup, and the `-1`, `-2`, … probing loop |
| cleanup.dfy | `Cleanup` | the steps of `cleanup_products` |
| fetch.dfy | `Fetch` | `get_category`, `is_valid_product`, `process_product`, `fetch_indian_products` |

Records are values: `Product` for the records both scripts write, and
`OffProduct` for the fields of an Open Food Facts record the fetcher reads.
A missing key is `None`.

Two parts of the source change state, and the model keeps that form:

- The set of slugs that `process_product` grows is a class,
  `Fetch.SlugRegistry`, with a `used` field.
- The loops of `cleanup_products` and `fetch_indian_products` are methods
  with loop invariants. Each is proved against a function that states the
  result: `Cleanup.Dedup` for the merge, `Fetch.Admitted` for the records
  the fetch loop converts.

Each regular expression is a hand-written scanner. It takes the same
leftmost match, and the same first alternative, as Python's `re`.

In these places the code does something a reader might not expect, and the
model follows the code:

- **Brand prefix.** `fix_product_name` re-prepends the brand after
  stripping it (`scripts/cleanup_products.py:57-59`). A name that repeats
  the brand, such as "Britannia Britannia Good Day Biscuits 100g", keeps
  both copies: the result is "Britannia Britannia Good Day Biscuits", and
  the repeated brand is not removed.
- **Calorie boundary.** An energy value of exactly 10 is accepted, because
  the test is `calories < 10` (`scripts/cleanup_products.py:28`).
- **Validity.** `is_valid_product` accepts energy *or* another nutrient
  (`scripts/fetch_products.py:173`), although the comment at line 164
  says "and".
- **Size units.** The size pattern of `fix_product_name` tries `g` before
  `gm` (`scripts/cleanup_products.py:65`), so a `gm` unit loses only its
  `g`. The cleanup pipeline (`NameFix.FixName`, `NameFix.FixProductName`,
  `Cleanup.CleanupProducts`) follows the code as written: "Chips 100gm"
  becomes "Chipsm". `NameFix.FixNameIntended` is the same rewrite with `gm`
  tried first; see "## Findings".

## Model

| member | source | states |
|---|---|---|
| `Strings.TrimSplit` | scripts/fetch_products.py:71 | `strip()` removes only a run of whitespace at each end: the input is that run, the stripped text, and a run of whitespace |
| `Strings.RetainChars` | scripts/cleanup_products.py:17 | deleting `[^\w\s]` keeps only characters of the input that are word characters or whitespace |
| `Strings.CollapseShape` | scripts/cleanup_products.py:19 | replacing runs with one character leaves no two separators side by side; keeps only the replacement and non-separators of the input; empties only the empty string |
| `Strings.CollapseNoop` | scripts/fetch_products.py:73 | collapsing changes nothing when every separator is already a lone replacement character |
| `Strings.Contains` | scripts/fetch_products.py:83 | Python's `keyword in text` holds exactly when the keyword occurs at some position |
| `Strings.JoinIsSpaced` | scripts/cleanup_products.py:72 | `' '.join` of words has no leading, trailing, doubled or non-space whitespace |
| `Strings.WordsOfJoin` | scripts/cleanup_products.py:71-72 | `split()` gives back exactly the words that `' '.join` joined |
| `Strings.DecimalRoundTrip` | scripts/cleanup_products.py:125 | the counter written into `f"{base}-{counter}"` reads back as the same number |
| `Products.CountPositiveIsCardinality` | scripts/cleanup_products.py:32-40 | the count of positive secondary nutrients is the number of distinct keys with a positive value |
| `Products.CompleteExactly` | scripts/cleanup_products.py:22-49 | a record is complete exactly when 10 ≤ energy_kcal ≤ 900, at least two of protein/sugar/sodium/fat/carbohydrates are positive (missing = 0), and the name has at least 5 characters |
| `Names.FirstSizeSuffix` | scripts/cleanup_products.py:15 | the size pattern matches at the returned position and at no earlier one (the leftmost match `re.sub` removes) |
| `Names.StripKeepsLowerCase` | scripts/cleanup_products.py:13-15 | cutting the size suffix off a lower-cased name leaves it lower-case |
| `Names.NormalizeName` | scripts/cleanup_products.py:11-20 | the key holds only lower-case word characters and spaces, never two spaces in a row |
| `Names.StripDescriptor` | scripts/cleanup_products.py:15 | a name without a size suffix, followed by a matching descriptor without a newline, loses exactly that descriptor |
| `Names.SizeSuffixIgnored` | scripts/cleanup_products.py:11-20 | appending a size descriptor to a name with no size suffix leaves its key unchanged. The descriptor is spaces, a count, spaces, then a unit word (g, gm, ml, l, kg, pack, pc, pcs) or an `x` multiplier with spaces and a digit, in any case, then any tail without a newline. The name may start with whitespace. Its last character must not be whitespace, a digit or an `x`, since these can join the descriptor |
| `NameFix.StripBrandPrefixOf` | scripts/cleanup_products.py:57-58 | a name made of the brand in any case, spaces and hyphens, and a rest loses exactly the brand and the separators |
| `NameFix.RemoveCodesFromNoCode` | scripts/cleanup_products.py:62 | the scan from any position leaves no run of ten or more digits |
| `NameFix.RemoveCodesNoCode` | scripts/cleanup_products.py:62 | after removing product codes, no run of ten or more digits remains |
| `NameFix.RemoveCodesKeeps` | scripts/cleanup_products.py:62 | a name without a run of ten or more digits is left unchanged |
| `NameFix.RemoveCodesOfCode` | scripts/cleanup_products.py:62 | a code of ten or more digits, with the spaces before it, is removed entirely |
| `NameFix.RemoveSizesNoDigits` | scripts/cleanup_products.py:65 | a name without digits contains no size token and is unchanged |
| `NameFix.RemoveSizesOfSized` | scripts/cleanup_products.py:65 | with `gm` tried before `g`, a size descriptor at the end of a digit-free name is removed entirely, whatever its unit |
| `NameFix.RemoveSizesAsWrittenLeavesM` | scripts/cleanup_products.py:65 | as written, a descriptor in `gm` loses only the `g`, so its `m` stays behind |
| `NameFix.OneGmExample` | scripts/cleanup_products.py:65 | as written "1gm" becomes "m"; corrected it becomes "" |
| `NameFix.CaseWordShape` | scripts/cleanup_products.py:72 | each word becomes a lower-case stop word or a capitalised word, with the same letters ignoring case |
| `NameFix.CaseWordIdempotent` | scripts/cleanup_products.py:72 | casing a cased word changes nothing |
| `NameFix.TitleNameShape` | scripts/cleanup_products.py:71-72 | the rewritten name is single-spaced and trimmed, has as many words as the input, and each word is a cased form of the input word |
| `NameFix.TitleNameIdempotent` | scripts/cleanup_products.py:71-72 | capitalising a capitalised name changes nothing |
| `NameFix.FixProductName` | scripts/cleanup_products.py:51-75 | only the name changes. The new name is trimmed and single-spaced, and each word is a lower-case stop word or capitalised |
| `NameFix.FixNameOfPlain` | scripts/cleanup_products.py:51-75 | a single-spaced name without digits or a brand prefix only has its words re-cased |
| `NameFix.OneGmName` | scripts/cleanup_products.py:51-75 | the whole rewrite turns "1gm" into "M" as written, and into "" with `gm` tried before `g` |
| `Slugs.SlugCoreIsSlug` | scripts/fetch_products.py:72-74 | filtering, folding separators into hyphens and stripping hyphens gives a slug |
| `Slugs.Slugify` | scripts/fetch_products.py:69-75 | a slug holds only lower-case letters, digits and hyphens, with no hyphen at either end and no two in a row |
| `Slugs.SlugifySlug` | scripts/fetch_products.py:69-75 | a slug is its own slug |
| `Slugs.SlugifyIdempotent` | scripts/fetch_products.py:69-75 | slugifying twice gives the same as once |
| `Slugs.CleanupSlugBase` | scripts/cleanup_products.py:119-120 | the slug base the cleanup computes is a slug |
| `Slugs.CleanupSlugBaseIsSlugify` | scripts/cleanup_products.py:119-120 | that base equals `slugify` of the name: skipping the initial `strip()` makes no difference |
| `Slugs.CandidateInjective` | scripts/cleanup_products.py:122-126 | different counters give different candidate slugs |
| `Slugs.ProbeSlug` | scripts/cleanup_products.py:122-126 | the probing loop returns a candidate that is not in use, and every earlier candidate is in use |
| `Cleanup.FindKey` | scripts/cleanup_products.py:99 | returns the first position whose record has the key, or -1 exactly when no record has it |
| `Cleanup.StepKeepsDistinct` | scripts/cleanup_products.py:99-112 | one iteration of the merge loop keeps the kept keys distinct |
| `Cleanup.DedupMerged` | scripts/cleanup_products.py:93-112 | the merged list has distinct keys, is no longer than the input and holds only input records; every input key is kept, by a record at least as rich as every input record with that key |
| `Cleanup.DedupOfDistinct` | scripts/cleanup_products.py:93-112 | records whose keys are already distinct are all kept, in order |
| `Cleanup.DedupOrder` | scripts/cleanup_products.py:96-112 | kept records appear in the order in which their keys first occur in the input, whichever record of the key is kept |
| `Cleanup.DedupFirstBest` | scripts/cleanup_products.py:100-109 | each kept record is richer than every earlier input record with its key: only a strictly richer record replaces, so on a tie the earlier one stays |
| `Cleanup.IndexOf` | scripts/cleanup_products.py:107 | `list.index` returns the first position holding an equal record |
| `Cleanup.IndexesAppend` | scripts/cleanup_products.py:110-112 | adding a new key to `seen_names` and appending its record keeps the map in step with the list |
| `Cleanup.IndexesReplace` | scripts/cleanup_products.py:107-109 | replacing the record of a key in both the list and `seen_names` keeps them in step |
| `Cleanup.DedupProducts` | scripts/cleanup_products.py:93-112 | the loop over `seen_names` and `unique_products` computes the merge `Dedup` |
| `Cleanup.CompleteOnly` | scripts/cleanup_products.py:89 | the filter keeps exactly the complete records of the input |
| `Cleanup.CompleteOnlySingle` | scripts/cleanup_products.py:89 | one record is kept exactly when it is complete |
| `Cleanup.CompleteOnlyAppend` | scripts/cleanup_products.py:89 | filtering a concatenation filters each part and keeps their order, so records keep their order and multiplicity |
| `Cleanup.AssignStep` | scripts/cleanup_products.py:122-129 | giving the next record the first free candidate extends the assignment by one slug |
| `Cleanup.AssignSlugs` | scripts/cleanup_products.py:117-129 | only slugs change; slugs are pairwise distinct; each is the first candidate of the record's slug base not used by earlier records |
| `Cleanup.CountInIsMultiplicity` | scripts/cleanup_products.py:141-144 | the count for a category is its number of occurrences among the records' `category_slug` values ("other" when missing) |
| `Cleanup.CountCategories` | scripts/cleanup_products.py:141-144 | the summary dict has exactly the categories present, each with its count |
| `Cleanup.CleanupProducts` | scripts/cleanup_products.py:85-144 | the kept records are, in order, the merge of the complete name-fixed records, each with a new slug. That slug is the first candidate of the record's slug base not taken by an earlier record. Every complete name-fixed input record has its normalised name kept. The count is the number of records kept and no more than the input, and the category counts match |
| `Fetch.CategoryFromNone` | scripts/fetch_products.py:82-86 | when no keyword occurs, the scan returns "namkeen" |
| `Fetch.CategoryFromMatch` | scripts/fetch_products.py:82-84 | the scan returns the category of the first keyword, in map order, that occurs |
| `Fetch.GetCategoryFirstMatch` | scripts/fetch_products.py:36-86 | `get_category` returns the category of the first CATEGORY_MAP keyword found in the lower-cased categories or product name, and "namkeen" when there is none |
| `Fetch.CategoryFromIsKnown` | scripts/fetch_products.py:36-86 | the category is always a value of CATEGORY_MAP or "namkeen" |
| `Fetch.ValidIgnoresOtherKeys` | scripts/fetch_products.py:157-173 | validity reads only the name and the six listed nutriment keys: setting any other key leaves it unchanged |
| `Fetch.EitherSuffices` | scripts/fetch_products.py:164-173 | a named record with only a non-zero protein value, or only a non-zero energy value, is valid: one of the two suffices |
| `Fetch.InvalidWithoutNameOrData` | scripts/fetch_products.py:159-173 | a record with no name, an empty name, or only zero nutriments is invalid |
| `Fetch.FirstField` | scripts/fetch_products.py:178 | `split(',')[0]` is the prefix up to the first comma |
| `Fetch.FullNameOfBranded` | scripts/fetch_products.py:177-184 | a name that starts with the brand in any case, then spaces or hyphens, then the rest, becomes "brand rest" |
| `Fetch.FullNameUnbranded` | scripts/fetch_products.py:181-184 | a name without the brand in front becomes "brand name" |
| `Fetch.Flags` | scripts/fetch_products.py:205-211 | each flag is present exactly when sodium > 500, sugar > 15 or saturated fat > 5, and flags come in the fixed order |
| `Fetch.SlugRegistry.constructor` | scripts/fetch_products.py:232 | `existing_slugs` starts empty |
| `Fetch.SlugRegistry.Claim` | scripts/fetch_products.py:186-193 | the slug was not in use before; it is the first free candidate of the base; the set grows by exactly that slug |
| `Fetch.ProcessProduct` | scripts/fetch_products.py:175-227 | builds the record's name, brand, id, category and label, nutrients, flags, image URL, source and source URL. Its slug is the first candidate of the slug of the full name that was not in the set, and is added to the set |
| `Fetch.AdmittedSnoc` | scripts/fetch_products.py:248-254 | reading a record marks its code seen, and admits it only when its code is new and it is valid |
| `Fetch.AdmittedShape` | scripts/fetch_products.py:248-254 | admitted records are valid, come from the records read and have distinct codes |
| `Fetch.AdmittedAreFirstValid` | scripts/fetch_products.py:248-254 | each admitted record is valid and is the first record read with its code |
| `Fetch.FirstInvalidBlocksCode` | scripts/fetch_products.py:248-254 | the code is marked seen before the validity check, so when a code's first record is invalid, no later copy is admitted |
| `Fetch.AdmittedPrefix` | scripts/fetch_products.py:237-258 | reading more records only adds admitted records at the end |
| `Fetch.FetchIndianProducts` | scripts/fetch_products.py:229-265 | returns the conversions of the first `limit` admitted records (none for a negative limit), never more than `limit`, with distinct slugs |

## Left out

- Network access, `search_products`, the User-Agent and timeout handling, `time.sleep`, `main`, argparse, JSON file input and output, and all printing. `fetch_indian_products` takes the search results as a sequence of batches, one per brand searched. The list of brands and the sorted printing of the category summary are not modelled.
- `extract_nutrients` and `parse_quantity` do floating-point parsing, rounding and unit conversion. `extract_nutrients` is a function parameter of the fetch operations. The `package_size_g` and `ingredients` fields are not part of the modelled record.
- Exceptions are not modelled: the `try`/`except` around `process_product`, and the errors Python raises on JSON `null` values. For example, a `null` categories value raises after the slug was already added to the set.
- A JSON `null` text field is modelled like a missing key. `off_product.get('code', slug)` therefore gives the slug as id for a `null` code, where Python gives `None`.
- Nutrient values are real numbers. Truthiness of non-numeric JSON values is not modelled.
- Text is ASCII. Python's Unicode `\w`, `\s`, `lower`, `capitalize` and `title` are modelled on their ASCII part only.
- In-place updates of the product dicts are modelled on values:
  - `fix_product_name` changes the record and returns it;
  - `product['slug'] = slug` is a new record at the same position.

  Nothing in `cleanup_products` reads a record through another reference after it is changed.
- The metadata of the data file other than `products` and `count` is not modelled.
- `Names.SizeSuffixIgnored`: the gaps inside the descriptor are runs of the space character. A tab or other whitespace that `\s` also matches there is not covered.
- `Strings.Title`: only its length is stated. The category label `category.replace('-', ' ').title()` is carried by `Fetch.ProcessProduct`, but no property of `str.title` is proved.

## Findings

| source | as written | input that shows it | evidently intended | confidence | as-written member | corrected member |
|---|---|---|---|---|---|---|
| scripts/cleanup_products.py:65 | the unit alternation lists `g` before `gm`. Python takes the first alternative that lets the match succeed, and the rest of the pattern matches the empty string, so `gm` is never chosen and only the `g` of a `gm` unit is removed | "Chips 100gm" becomes "Chipsm"; "1gm" becomes "m" | the whole size token, `gm` included, is removed: "Chips 100gm" becomes "Chips" | not executed | `NameFix.RemoveSizesAsWrittenLeavesM`, `NameFix.OneGmExample`, `NameFix.OneGmName` | `NameFix.RemoveSizesOfSized`, used by `NameFix.FixNameIntended` |
