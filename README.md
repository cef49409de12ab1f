# Sluggable — a Dafny model

The repository is one Laravel Eloquent trait, `Sluggable`, for models that
carry a URL slug. Before a record is created or updated, `setSlug` decides
whether the slug has to be derived again. If it does, it builds the slug from
the configured source fields and makes it unique among all sibling records,
soft-deleted ones included. Reserved slugs such as `create` are never used.
On a clash it tries `original-1`, `original-2`, … until a candidate is free.

The model has four modules:

- `Wrappers`: the `Option` and `Result` types.
- `Decimal`: how PHP renders an integer appended to a string (`FromNat`),
  with an inverse `ToNat`. The inverse is used to prove that different
  suffix numbers give different strings.
- `Slugs`: the string logic of `setSlug`. This covers the space-joined base
  text (`Join`, with `Split` as its inverse) and the numbered candidates.
  The specification function `FreeSlug` is the first candidate that is
  neither reserved nor taken. Two methods run the source's two loops: the
  `foreach` that builds the base text (`ConcatenateValues`) and the
  do-while disambiguation loop with its inner early-exit `foreach`
  (`Disambiguate`).
- `Sluggable`: the class `SluggableModel`, one Eloquent model using the trait.
  - Its three configuration properties (`$invalidSlugs`, `$slugField`,
    `$slugFields`) are constants, because they are fixed per model class.
  - Each of them is an `Option`, because a property may be absent (`None`).
  - Its attributes are a `map<string, string>`; an absent key is a null attribute.
  - `dirty` is the set of attribute names Eloquent reports dirty when
    `setSlug` starts. Nothing in the call reads it after the write, so the
    write does not update it.
  - The getters are functions.
  - `SetSlugOutcome` specifies what one `setSlug` call does: fail with a
    configuration error, skip, or assign a slug.
  - `ComputeSlug` runs the source's steps in the source's order.
  - `SetSlug` writes the result as the source does, and
    `SetSlugIntoSlugField` writes it where the rest of the trait expects it
    (see Findings).

Three inputs come from outside the trait and are plain parameters:

- `existing: seq<string>`: the sibling slugs the database query returns.
- `slugify: string -> string`: Laravel's `Str::slug`, left arbitrary.
- `dirty`: for Eloquent's `isClean`.

`setSlug` can assign the empty slug. When `slugify` yields `""` and `""`
is neither reserved nor a sibling's, the do-while loop accepts it on its first
pass (src/traits/Sluggable.php:65-86). `FreeSlug` states exactly when its
result is empty: only when the original is `""` and free.

Reserved slugs are compared as configured, without being slugified first
(src/traits/Sluggable.php:69); the model does the same.

## Model

| member | source | states |
|---|---|---|
| `Sluggable.SluggableModel.GetInvalidSlugs` | src/traits/Sluggable.php:21-26 | the reserved slugs are the configured list unchanged, and exactly `["create"]` when none is configured |
| `Sluggable.SluggableModel.GetSlugField` | src/traits/Sluggable.php:28-31 | the slug attribute is the configured name, and `"slug"` when none is configured |
| `Sluggable.SluggableModel.GetSlugFields` | src/traits/Sluggable.php:33-44 | error `NoSlugFields` exactly when the source-field list is absent or empty; error `SlugFromOwnField` exactly when it is non-empty and holds the slug field; otherwise the configured list itself, which is non-empty and free of the slug field |
| `Sluggable.SluggableModel.SetSlugOutcome` | src/traits/Sluggable.php:46-87 | fails exactly when the configuration is invalid, with that error, whatever the attributes and siblings are; skips exactly when the slug field is non-empty and no source field is dirty; otherwise assigns the first free candidate built from the slugified base text: not reserved, no sibling's, the original when that is free |
| `Sluggable.SluggableModel.HasSlug` | src/traits/Sluggable.php:48 | the slug field counts as set exactly when its value is neither null (an absent key) nor `""`, as PHP's `!= null` decides; `"0"` counts as set |
| `Slugs.IsFree` | src/traits/Sluggable.php:68-78 | a candidate passes exactly when it differs from every reserved slug and from every sibling slug |
| `Slugs.Candidate` | src/traits/Sluggable.php:80-81 | retry 0 is the original slug; retry k is the original, then `-`, then the decimal form of k, rebuilt from the original each time |
| `Sluggable.SluggableModel.ConcatenateFields` | src/traits/Sluggable.php:52-57 | yields the source fields' attribute values joined in configured order by single spaces; null attributes take part as empty segments |
| `Sluggable.SluggableModel.ComputeSlug` | src/traits/Sluggable.php:46-84 | running the skip test, validation, base text and disambiguation in the source's order yields exactly the outcome `SetSlugOutcome` specifies |
| `Sluggable.SluggableModel.SetSlug` | src/traits/Sluggable.php:46-87 | as written: returns the specified outcome; when a slug is assigned, it is stored under the attribute `"slug"` whatever the slug field is; otherwise the attributes are unchanged |
| `Sluggable.SluggableModel.SetSlugIntoSlugField` | src/traits/Sluggable.php:86 | corrected write: the same outcome, with the slug stored under the configured slug field |
| `Sluggable.SluggableModel.AfterSetSlug` | src/traits/Sluggable.php:86 | after the write as written, `"slug"` holds the assigned slug and every other attribute is as before; nothing changes when no slug is assigned |
| `Sluggable.SluggableModel.AfterSetSlugIntoSlugField` | src/traits/Sluggable.php:86 | after the corrected write, the slug field holds the assigned slug and every other attribute is as before |
| `Sluggable.FieldValues` | src/traits/Sluggable.php:52-56 | one value per source field, in order; a missing attribute reads as the empty string |
| `Sluggable.SkipIgnoresSiblings` | src/traits/Sluggable.php:48-50 | with valid configuration, a non-empty slug and no dirty source field, nothing is assigned, whatever the sibling slugs are |
| `Sluggable.IntendedSlugIsStable` | src/traits/Sluggable.php:46-87 | with the corrected write, a record that got a non-empty slug is skipped on its next save if no source field is dirty, whatever the siblings are then |
| `Sluggable.AsWrittenSlugIsNotStable` | src/traits/Sluggable.php:46-87 | as written, with a slug field other than `"slug"`, a freshly slugged record still has an empty slug field, so the next save derives a slug again even though nothing is dirty |
| `Slugs.ConcatenateValues` | src/traits/Sluggable.php:52-57 | the accumulating loop yields nothing for no values and otherwise `Join` of the values |
| `Slugs.SplitJoin` | src/traits/Sluggable.php:52-57 | joining is positional and loses nothing: splitting the joined text at spaces gives back the values when no value contains a space |
| `Slugs.Disambiguate` | src/traits/Sluggable.php:65-84 | the do-while loop terminates and returns `FreeSlug` of the original slug, the reserved slugs and the sibling slugs |
| `Slugs.FreeSlug` | src/traits/Sluggable.php:65-84 | the result is free (not reserved, no sibling's); it is the original when that is free; otherwise it is `original-k` for some `1 <= k <= |invalid| + |existing|`; it is the least free candidate; it is empty exactly when the original is empty and free |
| `Slugs.FirstFreeFrom` | src/traits/Sluggable.php:65-84 | if every retry below `k` is reserved or taken, the first free retry number is between `k` and `|invalid| + |existing|`; it is free and all retries before it are not |
| `Slugs.LeastFreeUnique` | src/traits/Sluggable.php:65-84 | any candidate that is free and comes after only non-free ones equals `FreeSlug`: the smallest-suffix rule determines the result |
| `Slugs.CandidateInjective` | src/traits/Sluggable.php:80-81 | each retry is rebuilt from the original slug, so suffixes never stack and different retry numbers give different candidates |
| `Slugs.ForbiddenBound` | src/traits/Sluggable.php:67-84 | pigeonhole: if the first `m` candidates are all reserved or taken, then `m <= |invalid| + |existing|`; this bounds the loop |
| `Slugs.SuffixExamples` | src/traits/Sluggable.php:65-84 | `hello-world` stays when free; it becomes `hello-world-1`, then `hello-world-2` as siblings take them; the reserved `create` becomes `create-1` |
| `Decimal.FromNat` | src/traits/Sluggable.php:81 | an appended number is written as at least one decimal digit, with no leading zero unless the number is zero |
| `Decimal.ToNatFromNat` | src/traits/Sluggable.php:81 | reading the decimal form back gives the number |
| `Decimal.FromNatInjective` | src/traits/Sluggable.php:81 | different numbers have different decimal forms |

## Left out

- Lifecycle wiring (src/traits/Sluggable.php:10-19) is framework event registration and is not modelled. Laravel boots a trait through `boot<TraitName>`, so a method named `bootCreatedBy` would not be called automatically for this trait.
- The sibling-slug query (src/traits/Sluggable.php:60-63) reads the database: `withTrashed`, the `id !=` filter and `pluck`. It is the input `existing`. A sibling whose slug is null is not represented. This loses nothing: PHP's `==` between the `Stringable` candidate and `null` is false (line 73), so a null sibling never blocks a candidate.
- `isClean` is Eloquent's dirty tracking. It is the set of dirty attribute names.
- `Str::slug` and `str()` are library code. They are the arbitrary parameter `slugify`. `Stringable::append` is string concatenation.
- Equality is exact string equality. PHP's loose comparison in `in_array` and `==` is not modelled; with it, for example, numeric strings compare as numbers.
- Attribute values are strings. A null attribute is an absent key and reads as `""`, which is how PHP appends null.
- Thrown `ErrorException`s are the `Failed` outcome carrying the error kind. The message texts are not modelled; the first one (line 36) names the model class, the second (line 40) does not.
- Concurrency is not modelled. The source does nothing about two saves racing between the sibling check and the write.

## Findings

| source | as written | input that shows it | evidently intended | confidence | as-written member | corrected member |
|---|---|---|---|---|---|---|
| src/traits/Sluggable.php:86 | the slug is stored in `$this->slug`, the attribute named `slug`. The skip test (line 48) and the sibling query (lines 62-63) both use `getSlugField()` | `$slugField = 'url'`, `$slugFields = ['title']`, a new record with `title = 'Hello'`: the slug lands in `slug`, `url` stays null, and every later save derives the slug again. The sibling query reads `url`, so it never sees the stored slugs | `$this->{$this->getSlugField()} = $slug->toString()` | high (not executed) | `Sluggable.AsWrittenSlugIsNotStable` | `Sluggable.IntendedSlugIsStable` |
