# WordStore anagram index, modelled in Dafny

`WordStore` is an in-memory anagram index. It holds two maps that refer to
each other:

- `anagramMap` maps each stored word to the set of the other stored words
  that are its anagrams.
- `sizeMap` maps each word length to the set of stored words of that length.
  A bucket may stay empty: buckets are never pruned, and the fallback lookup
  creates empty ones.

On these maps the class offers five operations:

- `addWords` stores lower-cased words and links each one both ways to its
  stored anagrams.
- `getAnagrams` looks a word up in the index. For a word that is not stored,
  it scans the bucket of that word's length instead.
- `deleteWord` removes a word and its back-links. It can cascade one level to
  the word's anagrams.
- `deleteAll` empties both maps.
- `getMetrics` reports the count and the min, max, median and average word
  length, computed from the length buckets.

There are also two free functions: `areAnagrams`, which compares character
counts, and the validator `isProperWord`.

The model is split into five modules:

- `Wrappers` holds `Option`.
- `Validation` covers ASCII lower-casing and `isProperWord`.
- `Signature` defines the anagram relation as multiset equality and holds the
  counting `AreAnagrams` method proved against it.
- `LengthStats` holds the arithmetic of `getMetrics`:
  - the buckets in ascending key order;
  - the grouped list of lengths they stand for;
  - the median walk proved against the median of that list.
- `Store` holds the class `WordStore`. Its fields `anagramMap` and `sizeMap`
  are updated in place by its methods.

The class invariant `Valid()` (the predicate `Consistent`) has three parts:

- each stored word is mapped to exactly the other stored words that are its
  anagrams;
- each bucket holds exactly the stored words of its length;
- every stored word has a bucket and is in lower case.

Symmetry, irreflexivity and "same length, same letters" follow from it
(`IndexProperties`).

Length keys are numbers here. The source gets its keys from
`Object.keys(sizeMap)`, so they are strings. That has three effects in the
source:

- it sorts the keys as strings;
- it reports min and max as strings;
- in the even boundary case of the median, it concatenates two keys before
  dividing.

The model follows the numeric intent instead. Median and average are exact
`real`s.

## Model

| member | source | states |
|---|---|---|
| Store.WordStore.constructor | WordStore.class.js:7-10 | a new store is consistent and holds no word and no bucket |
| Store.WordStore.GetAnagrams | WordStore.class.js:12-40 | keeps the store consistent and the index unchanged, adding at most an empty bucket for the word's length; returns distinct stored anagrams of the lower-cased word other than itself; without a limit, exactly all of them; with a limit, as many as `slice(0, limit)` keeps (negative limits count back) |
| Store.WordStore.ScanBucket | WordStore.class.js:26-36 | for an unstored word, creates its bucket empty if it is missing and returns exactly the stored words that are its anagrams, each once |
| Store.FilterAnagrams | WordStore.class.js:30-35 | keeps, without duplicates, exactly those candidates that `areAnagrams` accepts |
| Store.SetToSeq | WordStore.class.js:24 | `Array.from` of a set lists every element exactly once |
| Store.SliceEnd | WordStore.class.js:38 | `slice(0, limit)` keeps at most as many elements as the list has |
| Store.WordStore.AddWord | WordStore.class.js:47-50 | one step of `addWords`: the lower-cased word becomes stored and its length gets a bucket, the store stays consistent, and an already stored word leaves both maps unchanged |
| Store.WordStore.Insert | WordStore.class.js:52-63 | storing a new lower-case word adds exactly that word and its length and keeps the index, the buckets and the links consistent |
| Store.WordStore.Link | WordStore.class.js:60-63 | after the linking loop the new word's set is exactly the anagrams found, each found anagram's set gains the new word, and nothing else changes |
| Store.InsertConsistent | WordStore.class.js:52-63 | the links and the bucket insertion of `addWords` re-establish the invariant: each word's set is exactly its other stored anagrams |
| Store.WordStore.AddWords | WordStore.class.js:42-65 | the stored words become the old ones plus the lower-cased inputs, and the lengths grow by theirs; the store stays consistent; re-adding only stored words changes neither map |
| Store.WordStore.RemoveWord | WordStore.class.js:73-86 | a stored word leaves its bucket, the index and every anagram set, and nothing else changes; an unstored word leaves both maps unchanged |
| Store.WordStore.Unlink | WordStore.class.js:81-85 | the unlinking loop removes the word from exactly the sets of its former anagrams |
| Store.RemoveConsistent | WordStore.class.js:77-85 | the removal keeps the invariant and leaves every other set as it was, minus the removed word |
| Store.WordStore.DeleteWord | WordStore.class.js:67-92 | without cascade: the lower-cased word is removed and every other set loses only it, and an unstored word is a no-op; with cascade: exactly the stored words with its letters are removed, words of other letters stay, and its length gains a bucket |
| Store.WordStore.DeleteEach | WordStore.class.js:90 | deleting each listed word without cascade removes exactly their lower-cased forms and keeps every bucket key |
| Store.CascadeWords | WordStore.class.js:89-91 | removing the word and then all of its stored anagrams leaves exactly the words that are not its anagrams |
| Store.WordStore.DeleteAll | WordStore.class.js:94-97 | afterwards the store is consistent and holds no word and no bucket |
| Store.WordStore.GetMetrics | WordStore.class.js:99-159 | count is the number of stored words; an empty store gives count 0 and nulls; otherwise min and max are the least and greatest bucket key, the median is the median of the sorted word lengths, and the average is their sum over the count |
| Store.IndexProperties | WordStore.class.js:8 | in a consistent index the anagram relation is symmetric and irreflexive, and every recorded anagram is a stored word with the same length and letters |
| Store.BucketSizesAddUp | WordStore.class.js:103-129 | over the ascending keys, the bucket sizes add up to the number of stored words |
| Store.LengthListIsSortedLengths | WordStore.class.js:120-151 | the grouped list the buckets stand for is sorted, has one entry per stored word, and holds each length as often as words of that length are stored |
| Store.LengthListFacts | WordStore.class.js:153-156 | length times bucket size, summed over the keys, is the sum of the stored words' lengths |
| LengthStats.Ascending | WordStore.class.js:115-116 | the keys in strictly increasing order, each key once |
| LengthStats.FirstLast | WordStore.class.js:117-118 | the first ascending key is the least key and the last is the greatest |
| LengthStats.SetMin | WordStore.class.js:117 | a non-empty set of lengths has a least element |
| LengthStats.MedianScan | WordStore.class.js:123-151 | the bucket walk to ceil(count/2) returns the median of the sorted lengths |
| LengthStats.MedianFromBuckets | WordStore.class.js:130-145 | the bucket where the running total reaches ceil(count/2) holds the median; in the even boundary case, the next bucket that holds a word supplies the second middle length |
| LengthStats.NextPopulated | WordStore.class.js:137 | beyond a bucket boundary short of the total, some later bucket holds a word, and the buckets in between are empty |
| LengthStats.TotalLength | WordStore.class.js:153-155 | summing length times bucket size over the keys gives the sum of the grouped list of lengths |
| LengthStats.RunSorted | WordStore.class.js:115-116 | the grouped list over ascending keys is sorted |
| LengthStats.RunCount | WordStore.class.js:129 | each length occurs in the grouped list as often as its bucket has words |
| LengthStats.MedianScanAsWritten | WordStore.class.js:124-151 | the median loop as written, pairing with the next key in the even boundary case; whatever it returns is a key or the mean of a key and the key after it |
| LengthStats.MedianScanTerminates | WordStore.class.js:127-151 | when the bucket sizes add up to the count, the median loop as written stops inside `sizes` |
| LengthStats.MedianAsWrittenWithoutEmptyBuckets | WordStore.class.js:124-151 | when no bucket is empty, the loop as written returns exactly the median of the sorted lengths, so its boundary-case error needs an emptied bucket |
| LengthStats.MedianAsWrittenCounterexample | WordStore.class.js:136-139 | the as-written boundary case, read with numeric keys, returns 2.5 where the median of the stored lengths [2, 4] is 3 |
| Signature.AreAnagrams | WordStore.class.js:184-208 | true exactly when the two words have the same characters the same number of times; false whenever the lengths differ |
| Signature.Count | WordStore.class.js:194-204 | after one counting loop over a word, each character's count has moved up (or down) by exactly its number of occurrences in the word |
| Signature.AllZero | WordStore.class.js:207 | true exactly when every recorded count is zero |
| Signature.AnagramSameLength | WordStore.class.js:191 | anagrams have equal length |
| Signature.AnagramEquivalence | WordStore.class.js:184-208 | the anagram relation is reflexive, symmetric and transitive |
| Signature.AnagramPositiveExamples | WordStore.test.js:9-13 | read/dear, dear/read, dear/dare, abc/cba and abcdefghhh/abchhhefdg are anagrams |
| Signature.AnagramNegativeExamples | WordStore.test.js:14-17 | abc/adf, a/d, abrakadabra/abrakadabre and abrakadabra/abrakadabr are not |
| Validation.ToLower | WordStore.class.js:19 | lower-casing keeps the length, leaves no upper-case letter, and changes nothing but upper-case letters |
| Validation.ToLowerFixed | WordStore.class.js:48 | lower-casing leaves a word unchanged exactly when it has no upper-case letter |
| Validation.ToLowerIdempotent | WordStore.class.js:73 | lower-casing twice is lower-casing once |
| Validation.IsProperWord | WordStore.class.js:210-225 | true exactly for a non-empty string of ASCII letters, whose lower-cased form is then a storable word |
| Validation.ProperWordExamples | WordStore.class.js:210-225 | "Read" and "dear" are proper; "", "de ar", "r2d2" and a non-string are not |
| Store.HasEntryAsWritten | WordStore.class.js:50 | the as-written entry test on a plain object agrees with the own-key test except on names inherited from `Object.prototype`, and never misses an own key |
| Store.ConstructorSkippedAsWritten | WordStore.class.js:50 | "constructor" is a proper, lower-case word that the as-written duplicate test on an empty store treats as already stored |

## Left out

- The `console.log` in `addWords`: it is a logging side effect.
- `getWordsWithMostAnagrams`, `getAnagramGroups` and `areAllAnagrams` have
  empty bodies, so there is no behaviour to model.
- Express routing (words.route.js) and server start-up (index.js) are I/O and
  are not part of this model.
- `toLowerCase` is modelled for ASCII only: 'A'..'Z' become 'a'..'z' and
  other characters are unchanged. Full Unicode case mapping is not modelled.
- String lengths count `char`s. UTF-16 code units are not modelled.
- The string keys of `sizeMap` are not modelled. The source sorts them as
  strings, reports min and max as strings and concatenates them in the even
  median case. Lengths here are numbers, sorted and added as numbers.
- Floating point: median and average are exact `real`s.
- Set and array order: JavaScript `Set`s keep insertion order, but Dafny sets
  do not. `Array.from` is modelled as some duplicate-free listing.
- Store.WordStore.GetAnagrams: states which anagrams are returned and, under
  a limit, how many, but not which of them come first: the result carries
  no order, so a limited result is some subset of the right size.
- Store.WordStore.GetAnagrams: tests for a stored word with an own key of the
  index, not with the source's property read at lines 20-23. As written, a
  word named like an inherited property (`getAnagrams("constructor")`)
  takes the indexed branch, returns `[undefined]` from `Array.from` of that
  function, and creates no bucket; the model scans the bucket instead.
- Store.WordStore.DeleteWord: tests for a stored word with an own key of the
  index, not with the source's property read at line 75. As written,
  `deleteWord("constructor")` enters the removal branch and throws a
  `TypeError` either way: at line 77 when no bucket for length 11 exists,
  and otherwise at line 84, where `Array.from` of the inherited function
  yields `[undefined]` and `this.anagramMap["undefined"]` has no `delete`
  (unless "undefined" is a stored word). The model treats an unstored word
  as a no-op.
- Store.WordStore.AddWord: models the intended duplicate test (an own key of
  the index). The as-written test, which also sees inherited object
  properties, is kept separately as `Store.HasEntryAsWritten` (see Findings).
- LengthStats.MedianScan: computes the corrected median, where the even
  boundary case pairs with the next bucket that holds a word. The as-written
  loop is `LengthStats.MedianScanAsWritten` (see Findings).

## Findings

| source | as written | input that shows it | evidently intended | confidence | as-written member | corrected member |
|---|---|---|---|---|---|---|
| WordStore.class.js:50 | `if(this.anagramMap[word]) return` on a plain object is also true for names inherited from `Object.prototype`; the same property read decides the indexed branch of `getAnagrams` (lines 20-23) and the removal in `deleteWord` (line 75) | `addWords(["constructor"])` on an empty store: the word is skipped and never stored | skip only words that are own keys of the index | not executed | Store.ConstructorSkippedAsWritten | Store.WordStore.AddWord |
| WordStore.class.js:136-139 | in the even case, when the running total lands exactly on ceil(count/2), the median averages with the next key, `sizes[sizeIndex+1]`, even if that bucket is empty | `addWords(["ab","abc","abcd"])`, `deleteWord("abc")`, `getMetrics()`: buckets 2, 3 (now empty) and 4 give a median of 11.5 as written, where the string keys make line 138 compute `("2" + "3") / 2`, or 2.5 with numeric keys, instead of 3 | average with the next bucket that holds a word | not executed | LengthStats.MedianAsWrittenCounterexample | LengthStats.MedianScan |
