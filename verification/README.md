# HashListAutocomplete in Dafny

A model of `HashListAutocomplete`, the hash-bucket autocompletor. It is built
from an array of words and an array of weights. `initialize` files every term
under each prefix of its word of 0 to `MAX_PREFIX` (10) characters. Each prefix
is a key of a hash map, and its bucket lists the matching terms. Every bucket
is then sorted heaviest first with a stable sort. `topMatches(prefix, k)` looks
the prefix up and returns the first `min(k, size)` terms of its bucket, or
nothing when the prefix is not a key. `sizeInBytes` estimates the map's memory
and caches the estimate in the `mySize` field. It charges 2 bytes per key
character and, for each bucket entry, 8 bytes plus 2 bytes per word character.
A term that sits in several buckets is charged once per bucket.

The project has three modules:

- `Terms` (`terms.dfy`): the `Term` value and the bucket order. `StableSort`
  is an insertion sort by descending weight. It is proved sorted, a
  permutation of its input and stable. It is also the only such result
  (`StableSortIsUnique`), so any stable sort the runtime uses returns the same
  sequence.
- `PrefixIndex` (`prefix_index.dfy`): what the map means, as functions of the
  vocabulary. `Matching` lists the terms filed under a key, in input order.
  `Index` is the whole sorted map, `TopK` is a query answer and `MapCost` is
  the byte estimate of a map. The lemmas about them are here too.
- `Autocomplete` (`autocomplete.dfy`): the class `HashListAutocomplete`. Its
  fields are `myMap` and `mySize`, plus a ghost `vocabulary`. Its constructor
  and the methods `Initialize`, `TopMatches` and `SizeInBytes` follow the
  Java loops. Each is proved against the functions above. The object
  invariant `Valid()` says `myMap == Index(vocabulary)`.

## Model

| member | source | states |
|---|---|---|
| Terms.StableSort | src/HashListAutocomplete.java:47-49 | sorting a bucket keeps its length and its terms, counted with multiplicity |
| Terms.StableSortSorted | src/HashListAutocomplete.java:47-49 | a sorted bucket is non-increasing in weight: the heaviest term comes first |
| Terms.StableSortKeepsOrderOfEqualWeights | src/HashListAutocomplete.java:47-49 | the sort is stable: for every weight, the terms of that weight stay in the order they were added |
| Terms.StableSortIsUnique | src/HashListAutocomplete.java:47-49 | any non-increasing sequence that keeps the input order among equal weights equals `StableSort` of the input, so the bucket does not depend on the sort algorithm |
| PrefixIndex.MatchingMember | src/HashListAutocomplete.java:37-44 | a term is in the bucket of `p` exactly when it is an input term and `p` is a prefix of its word of at most 10 characters |
| PrefixIndex.MatchingCount | src/HashListAutocomplete.java:37-44 | a bucket has as many entries as there are input positions filed under its key |
| PrefixIndex.BucketMultiplicity | src/HashListAutocomplete.java:37-49 | a term filed under `p` occurs in the bucket of `p` as often as in the input, so a term given twice is listed twice; a term not filed under `p` does not occur there |
| PrefixIndex.IndexKeysMember | src/HashListAutocomplete.java:38-43 | a string is a key of the map exactly when at least one term is filed under it |
| PrefixIndex.PrefixClosure | src/HashListAutocomplete.java:38-43 | every input term is filed under each of its prefixes of length 0 to `min(10, length)` |
| PrefixIndex.IndexClosure | src/HashListAutocomplete.java:38-49 | each prefix of length 0 to `min(10, length)` of an input word is a key of the built map, and its sorted bucket holds that term |
| PrefixIndex.IndexKeysAndBuckets | src/HashListAutocomplete.java:38-43 | every key is at most 10 characters long and every bucket is non-empty |
| PrefixIndex.UnknownPrefix | src/HashListAutocomplete.java:38-40 | a prefix longer than 10 characters, or one that begins no word, has no terms filed under it |
| PrefixIndex.BucketOrdered | src/HashListAutocomplete.java:47-49 | a bucket of the map is sorted heaviest first, is a permutation of the terms filed under its key and keeps equal weights in input order |
| PrefixIndex.TopKLengthAndOrder | src/HashListAutocomplete.java:73-75 | a query returns exactly `min(k, number of matching terms)` terms, none for `k == 0`; they are a prefix of the bucket and are sorted heaviest first |
| PrefixIndex.TopKMembers | src/HashListAutocomplete.java:73-75 | every term a query returns is an input term whose word starts with the prefix |
| PrefixIndex.TopKIsBest | src/HashListAutocomplete.java:73-75 | the returned terms are among the matching terms, and no matching term that is left out is heavier than a returned one |
| PrefixIndex.TopKOfUnknownPrefix | src/HashListAutocomplete.java:70-72 | a query for a prefix longer than 10 characters, or one that begins no word, returns the empty sequence for every `k` |
| PrefixIndex.EntriesCost | src/HashListAutocomplete.java:84-87 | the entries of a bucket cost at least 8 bytes each |
| PrefixIndex.MapCost | src/HashListAutocomplete.java:82-88 | the estimate of a map is never negative |
| PrefixIndex.MapCostRemove | src/HashListAutocomplete.java:82-88 | the estimate is the cost of any one key and its bucket plus the estimate of the rest, so hash-map iteration order does not change the sum |
| PrefixIndex.IndexCostUnsorted | src/HashListAutocomplete.java:47-49 | sorting the buckets does not change the estimate |
| PrefixIndex.IndexCostZeroIffEmpty | src/HashListAutocomplete.java:80 | the estimate of the index is zero exactly when the vocabulary is empty, so for a non-empty vocabulary a cached zero always means "not computed yet" |
| Autocomplete.Vocabulary | src/HashListAutocomplete.java:37-41 | term `i` of the vocabulary is word `terms[i]` with weight `weights[i]`, one term per word |
| Autocomplete.New | src/HashListAutocomplete.java:23-30 | construction fails with "One or more arguments null" exactly when either array is missing; otherwise the new object holds the index of the vocabulary and an empty size cache |
| Autocomplete.HashListAutocomplete.constructor | src/HashListAutocomplete.java:23-30 | the new object holds the index of the given words and weights, and its size cache is zero |
| Autocomplete.HashListAutocomplete.Initialize | src/HashListAutocomplete.java:34-50 | after the filing loops and the sort, `myMap` is `Index` of the given vocabulary; the cached size is left unchanged |
| Autocomplete.HashListAutocomplete.SortBuckets | src/HashListAutocomplete.java:47-49 | sorting visits every bucket: the keys stay the same and every bucket becomes `StableSort` of what it held |
| Autocomplete.HashListAutocomplete.TopMatches | src/HashListAutocomplete.java:69-76 | the answer is `TopK` of the vocabulary: the first `min(k, size)` terms of the prefix's sorted bucket, or nothing when the prefix is not a key; a negative `k` is accepted only for a prefix that is not a key |
| Autocomplete.HashListAutocomplete.SizeInBytes | src/HashListAutocomplete.java:79-92 | a non-zero cache is returned as it is; a zero cache is replaced by `MapCost` of the map; if the cache was sound, the result is the map's estimate |
| Autocomplete.FileUnderShortPrefixes | src/HashListAutocomplete.java:38-44 | one pass of the inner loop for input `i` turns the unsorted map of the inputs before `i` into that of the inputs up to `i` |
| Autocomplete.SortedBucketsAreIndex | src/HashListAutocomplete.java:47-49 | stably sorting every bucket of the unsorted map gives `Index` |
| Autocomplete.FileCost | src/HashListAutocomplete.java:42-43 | filing a term once adds one entry to the estimate, plus the key's characters when a bucket is created |
| Autocomplete.FileUnderCost | src/HashListAutocomplete.java:39-44 | filing a term under `k` prefixes adds `k` entries for it to the estimate, besides the cost of new keys |
| Autocomplete.UnsortedIndexCost | src/HashListAutocomplete.java:37-46 | the estimate of the unsorted map is its key characters plus, for each input term, `min(10, length) + 1` entries for that term |
| Autocomplete.IndexCostPerTerm | src/HashListAutocomplete.java:79-92 | the estimate double-counts text: it is the key characters plus one entry cost for each term in each of its `min(10, length) + 1` buckets |
| Autocomplete.RepeatedQueriesAgree | src/HashListAutocomplete.java:69-76 | a query changes nothing: asking the same query twice gives the same `TopK` answer |
| Autocomplete.RepeatedSizesAgree | src/HashListAutocomplete.java:79-92 | a second `SizeInBytes` returns the first one's value; on a sound cache, both are the map's estimate |
| Autocomplete.StaleSizeAfterReinitialize | src/HashListAutocomplete.java:34-35 | after one size query and a re-initialization with no terms, `SizeInBytes` reports a positive size for a map with no keys |
| Autocomplete.HashListAutocomplete.Rebuild | src/HashListAutocomplete.java:34-50 | re-initializes as `initialize` does and clears the cache, so the cache stays sound and the next size is the new map's estimate |
| Autocomplete.FreshSizeAfterRebuild | src/HashListAutocomplete.java:80 | with `Rebuild`, the same sequence of calls reports size zero for the empty map |

## Left out

- `Term`, `Term.ReverseWeightOrder` and the `Autocompletor` interface are not part of this model. A term is a value here: a word and a weight. The comparator is taken to order by weight alone, heaviest first. The interface's byte constants are taken to be 2 per character and 8 per double.
- Weights are `int` rather than `double`, because only their order matters. NaN and signed zeros are not modelled.
- Autocomplete.HashListAutocomplete.Initialize, Autocomplete.HashListAutocomplete.constructor, Autocomplete.New: require `weights` to be at least as long as `terms`. With a shorter `weights`, the Java throws an index exception; with a longer one, it ignores the extra weights. The model has no exception path for this. Lengths that differ in that way are not rejected, because the code does not check them.
- Autocomplete.HashListAutocomplete.TopMatches: requires `k >= 0` when the prefix is a key. A negative `k` makes `subList` throw, and the model has no exception path for it. For a prefix that is not a key, any `k` is accepted, and the answer is empty, as in the code.
- A `null` prefix and `null` words inside `terms` are not modelled, because a Dafny string is never null. A `null` prefix is a missing key for the Java `HashMap`, so `topMatches` returns an empty list. A `null` word makes `initialize` throw.
- Null arrays are modelled only for the constructor, in `New`. `Initialize` takes two non-null arrays. Called directly, the Java `initialize` accepts `initialize(new String[0], null)` without error and throws a `NullPointerException` for the other null cases. Neither behaviour is modelled.
- A Dafny `char` stands for one Java UTF-16 `char`. Lengths, prefixes and the `2 * length` byte charges count these units. A word with a character outside the Basic Multilingual Plane is not modelled as Java handles it. In Java, the one-character word U+1F600 has length 2 and is filed under three keys: the empty string, a lone high surrogate and the whole word. A Dafny `char` is a Unicode scalar value, so such a word would be one character long here.
- Hashing and iteration order of `HashMap` are not modelled. The sort loop and the size loop pick keys in an arbitrary order, and the results are proved not to depend on it.
- `topMatches` returns a `subList` view that aliases the bucket. Here it returns a copy of that slice, so later writes through the view are not modelled.
- Autocomplete.HashListAutocomplete.SizeInBytes: `mySize` is an unbounded integer, so Java's 32-bit `int` overflow on very large maps is not modelled.
- Concurrent calls and the lack of synchronisation on the memoised size are not modelled.
- The insertion sort `StableSort` stands for `Collections.sort`. `StableSortIsUnique` shows that both give the same result. Running time is not modelled.

## Findings

| source | as written | input that shows it | evidently intended | confidence | as-written member | corrected member |
|---|---|---|---|---|---|---|
| src/HashListAutocomplete.java:34-35 | `initialize` replaces `myMap` but keeps `mySize`, and `sizeInBytes` returns any non-zero `mySize` unchanged (:80) | build from `["a"]` / `[1]`, call `sizeInBytes`, then `initialize` with two empty arrays and call `sizeInBytes` again: the result is positive although the map has no keys | re-initializing clears the cached size, so the next `sizeInBytes` measures the new map | medium, not executed | Autocomplete.StaleSizeAfterReinitialize | Autocomplete.HashListAutocomplete.Rebuild |
