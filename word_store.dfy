/**
 * The in-memory anagram index `WordStore` (WordStore.class.js, lines 6-174).
 *
 * The store keeps two maps that refer to each other:
 *   anagramMap: stored word -> the other stored words that are its anagrams
 *   sizeMap:    word length -> the stored words of that length
 * A length bucket may be empty and still be a key: the source never prunes
 * buckets, and its fallback lookup creates empty ones.
 *
 * JavaScript `Set`s keep insertion order; here they are Dafny sets, so a
 * list produced from a set is some enumeration of it without duplicates.
 */
module Store {
  import opened Wrappers
  import opened Validation
  import opened Signature
  import opened LengthStats

  /** The other words of `S` with the same letters as `w`. */
  function AnagramsAmong(S: set<string>, w: string): set<string> {
    set x | x in S && x != w && IsAnagram(x, w)
  }

  /** The stored words of `S` that have length `n`. */
  function BucketOf(S: set<string>, n: nat): set<string> {
    set w | w in S && |w| == n
  }

  /** Each key of `m` is mapped to the other keys that are its anagrams. */
  ghost predicate IsAnagramIndex(m: map<string, set<string>>) {
    forall a, b :: a in m ==> (b in m[a] <==> b in m && b != a && IsAnagram(b, a))
  }

  /** Each bucket of `buckets` holds exactly the words of `S` of its length. */
  ghost predicate IsBuckets(buckets: map<nat, set<string>>, S: set<string>) {
    forall n, w :: n in buckets ==> (w in buckets[n] <==> w in S && |w| == n)
  }

  /**
   * The invariants of an index of this shape: the anagram relation it
   * records is symmetric, no word is its own anagram, every recorded anagram
   * is a stored word with the same length and the same letters as its key,
   * and every stored anagram of a key is recorded.
   */
  lemma IndexProperties(m: map<string, set<string>>, a: string, b: string)
    requires IsAnagramIndex(m) && a in m && b in m
    ensures b in m[a] <==> a in m[b]
    ensures a !in m[a]
    ensures b in m[a] ==> |b| == |a| && multiset(b) == multiset(a)
    ensures m[a] <= m.Keys
    ensures b != a && IsAnagram(a, b) ==> b in m[a]
  {
    if b in m[a] {
      AnagramSameLength(a, b);
    }
  }

  /** A bucket holds exactly the stored words of its length. */
  lemma BucketIsBucketOf(buckets: map<nat, set<string>>, S: set<string>, n: nat)
    requires IsBuckets(buckets, S) && n in buckets
    ensures buckets[n] == BucketOf(S, n)
  {
    forall w ensures w in buckets[n] <==> w in BucketOf(S, n) {
    }
  }

  /** The stored words of `S` whose length is one of `lengths`. */
  function WithLengthIn(S: set<string>, lengths: seq<nat>): set<string> {
    set w | w in S && |w| in lengths
  }

  /**
   * The words of the first `i` buckets, taken in `sizes` order, are exactly the
   * stored words whose length is among `sizes[..i]`.
   */
  lemma {:induction false} BucketsPartition(buckets: map<nat, set<string>>, S: set<string>, sizes: seq<nat>, i: nat)
    requires IsBuckets(buckets, S) && StrictlyIncreasing(sizes) && Covers(sizes, buckets)
    requires i <= |sizes|
    ensures Prefix(sizes, buckets, i) == |WithLengthIn(S, sizes[..i])|
  {
    if i > 0 {
      BucketsPartition(buckets, S, sizes, i - 1);
      PartitionStep(buckets, S, sizes, i);
    } else {
      assert WithLengthIn(S, sizes[..0]) == {};
    }
  }

  /** One more bucket adds its words, none of which were counted before. */
  lemma PartitionStep(buckets: map<nat, set<string>>, S: set<string>, sizes: seq<nat>, i: nat)
    requires IsBuckets(buckets, S) && StrictlyIncreasing(sizes) && Covers(sizes, buckets)
    requires 0 < i <= |sizes|
    ensures |WithLengthIn(S, sizes[..i])| == |WithLengthIn(S, sizes[..i - 1])| + |buckets[sizes[i - 1]]|
  {
    var before := WithLengthIn(S, sizes[..i - 1]);
    var after := WithLengthIn(S, sizes[..i]);
    var bucket := BucketOf(S, sizes[i - 1]);
    BucketIsBucketOf(buckets, S, sizes[i - 1]);
    assert sizes[..i] == sizes[..i - 1] + [sizes[i - 1]];
    assert after == before + bucket;
    forall w | w in before ensures w !in bucket {
      var j :| 0 <= j < i - 1 && sizes[..i - 1][j] == |w|;
      assert sizes[j] < sizes[i - 1];
    }
    assert before * bucket == {};
  }

  /** The bucket sizes add up to the number of stored words. */
  lemma BucketSizesAddUp(buckets: map<nat, set<string>>, S: set<string>)
    requires IsBuckets(buckets, S) && forall w :: w in S ==> |w| in buckets
    ensures Covers(Ascending(buckets.Keys), buckets)
    ensures Prefix(Ascending(buckets.Keys), buckets, |Ascending(buckets.Keys)|) == |S|
  {
    AllBucketsAddUp(buckets, S, Ascending(buckets.Keys));
  }

  /** Walking all the buckets, in any strictly increasing key order, counts every stored word once. */
  lemma AllBucketsAddUp(buckets: map<nat, set<string>>, S: set<string>, sizes: seq<nat>)
    requires IsBuckets(buckets, S) && forall w :: w in S ==> |w| in buckets
    requires StrictlyIncreasing(sizes) && forall k :: k in sizes <==> k in buckets
    ensures Covers(sizes, buckets) && Prefix(sizes, buckets, |sizes|) == |S|
  {
    BucketsPartition(buckets, S, sizes, |sizes|);
    assert sizes[..|sizes|] == sizes;
    forall w | w in S ensures w in WithLengthIn(S, sizes) {
      assert |w| in buckets;
    }
    assert WithLengthIn(S, sizes) == S;
  }

  /**
   * The lengths of the words held by the buckets, in ascending order (empty
   * buckets contribute nothing).
   */
  function LengthList(buckets: map<nat, set<string>>): seq<nat> {
    var sizes := Ascending(buckets.Keys);
    assert Covers(sizes, buckets);
    Run(sizes, buckets, |sizes|)
  }

  /**
   * `LengthList` is the sorted list of the stored words' lengths: sorted, one
   * entry per stored word, and each length as often as words of that length
   * are stored.
   */
  lemma LengthListIsSortedLengths(buckets: map<nat, set<string>>, S: set<string>, k: nat)
    requires IsBuckets(buckets, S) && forall w :: w in S ==> |w| in buckets
    ensures NonDecreasing(LengthList(buckets))
    ensures |LengthList(buckets)| == |S|
    ensures multiset(LengthList(buckets))[k] == |BucketOf(S, k)|
  {
    RunIsSortedLengths(buckets, S, Ascending(buckets.Keys), k);
  }

  /** The grouped list over all the keys in strictly increasing order. */
  lemma RunIsSortedLengths(buckets: map<nat, set<string>>, S: set<string>, sizes: seq<nat>, k: nat)
    requires IsBuckets(buckets, S) && forall w :: w in S ==> |w| in buckets
    requires StrictlyIncreasing(sizes) && forall x :: x in sizes <==> x in buckets
    ensures Covers(sizes, buckets)
    ensures NonDecreasing(Run(sizes, buckets, |sizes|))
    ensures |Run(sizes, buckets, |sizes|)| == |S|
    ensures multiset(Run(sizes, buckets, |sizes|))[k] == |BucketOf(S, k)|
  {
    AllBucketsAddUp(buckets, S, sizes);
    RunLength(sizes, buckets, |sizes|);
    RunSorted(sizes, buckets, |sizes|);
    RunCount(sizes, buckets, |sizes|, k);
    assert sizes[..|sizes|] == sizes;
    if k in buckets {
      BucketIsBucketOf(buckets, S, k);
    } else {
      forall w | w in S ensures |w| != k {
        assert |w| in buckets;
      }
      assert BucketOf(S, k) == {};
    }
  }

  /**
   * What the bucket walk of `getMetrics` relies on: the ascending keys cover
   * the buckets, their bucket sizes add up to the number of stored words,
   * and the length times bucket size totals add up to the sum of the lengths.
   */
  lemma LengthListFacts(buckets: map<nat, set<string>>, S: set<string>)
    requires IsBuckets(buckets, S) && forall w :: w in S ==> |w| in buckets
    ensures var sizes := Ascending(buckets.Keys);
      && Covers(sizes, buckets)
      && Prefix(sizes, buckets, |sizes|) == |S|
      && LengthList(buckets) == Run(sizes, buckets, |sizes|)
      && |LengthList(buckets)| == |S|
      && Sum(LengthList(buckets)) == TotalLength(sizes, buckets, |sizes|)
  {
    var sizes := Ascending(buckets.Keys);
    BucketSizesAddUp(buckets, S);
    RunLength(sizes, buckets, |sizes|);
  }

  predicate Distinct(s: seq<string>) {
    forall i, j :: 0 <= i < j < |s| ==> s[i] != s[j]
  }

  /** A list without duplicates is as long as the set of its elements. */
  lemma {:induction false} DistinctSize(s: seq<string>, S: set<string>)
    requires Distinct(s) && forall x :: x in s <==> x in S
    ensures |s| == |S|
  {
    if s != [] {
      forall x ensures x in s[1..] <==> x in S - {s[0]} {
        if x in s[1..] {
          var j :| 1 <= j < |s| && s[j] == x;
          assert s[0] != s[j];
        }
        if x in s && x != s[0] {
          var j :| 0 <= j < |s| && s[j] == x;
          assert s[1..][j - 1] == x;
        }
      }
      DistinctSize(s[1..], S - {s[0]});
    } else {
      forall x | x in S ensures x in s {
      }
      assert S == {};
    }
  }

  /** A prefix of a list without duplicates has no duplicates and only elements of the list. */
  lemma PrefixOfDistinct(s: seq<string>, e: nat)
    requires Distinct(s) && e <= |s|
    ensures Distinct(s[..e]) && |s[..e]| == e
    ensures forall x :: x in s[..e] ==> x in s
  {
    forall x | x in s[..e] ensures x in s {
      var k :| 0 <= k < e && s[..e][k] == x;
      assert s[k] == x;
    }
  }

  /** `Array.from(set)`: the elements of a set, each once, in some order. */
  method SetToSeq(s: set<string>) returns (r: seq<string>)
    ensures Distinct(r) && |r| == |s|
    ensures forall x :: x in r <==> x in s
  {
    r := [];
    var rest := s;
    while rest != {}
      invariant forall x :: x in s <==> x in r || x in rest
      invariant forall x :: x in r ==> x !in rest
      invariant Distinct(r)
      invariant |r| + |rest| == |s|
      decreases rest
    {
      var x :| x in rest;
      r := r + [x];
      rest := rest - {x};
    }
  }

  /**
   * The `forEach` of the fallback lookup: keep, in order, the candidates
   * that are anagrams of `w`.
   */
  method FilterAnagrams(w: string, candidates: seq<string>) returns (full: seq<string>)
    requires Distinct(candidates)
    ensures Distinct(full)
    ensures forall x :: x in full <==> x in candidates && IsAnagram(w, x)
  {
    full := [];
    for i := 0 to |candidates|
      invariant Distinct(full)
      invariant forall x :: x in full <==> x in candidates[..i] && IsAnagram(w, x)
    {
      var isAnagram := AreAnagrams(w, candidates[i]);
      if isAnagram {
        forall x | x in full ensures x != candidates[i] {
          var j :| 0 <= j < i && candidates[..i][j] == x;
          assert candidates[j] == x;
        }
        full := full + [candidates[i]];
      }
      assert candidates[..i + 1] == candidates[..i] + [candidates[i]];
    }
    assert candidates[..|candidates|] == candidates;
  }

  /**
   * The end index of `slice(0, limit)` on a list of length `len`: no limit
   * keeps everything, a non-negative limit is capped at `len`, a negative one
   * counts back from the end.
   */
  function SliceEnd(len: nat, limit: Option<int>): (e: nat)
    ensures e <= len
  {
    match limit
    case None => len
    case Some(l) =>
      if l >= 0 then (if l < len then l else len)
      else if len + l > 0 then len + l else 0
  }

  /** The record `getMetrics` returns; `None` stands for `null`. */
  datatype Metrics = Metrics(
    count: nat,
    minLength: Option<nat>,
    maxLength: Option<nat>,
    medianLength: Option<real>,
    averageLength: Option<real>)

  /** The lower-cased forms of a list of words. */
  function LowerAll(words: seq<string>): (r: set<string>)
    ensures forall i :: 0 <= i < |words| ==> ToLower(words[i]) in r
    ensures forall x :: x in r ==> IsLower(x)
  {
    if words == [] then {}
    else LowerAll(words[..|words| - 1]) + {ToLower(words[|words| - 1])}
  }

  /** The lengths of a set of words. */
  function LengthsOf(S: set<string>): set<nat> {
    set w | w in S :: |w|
  }

  /** One more word of the list adds its lower-cased form and its length. */
  lemma LowerAllStep(words: seq<string>, i: nat)
    requires i < |words|
    ensures LowerAll(words[..i + 1]) == LowerAll(words[..i]) + {ToLower(words[i])}
    ensures LengthsOf(LowerAll(words[..i + 1])) == LengthsOf(LowerAll(words[..i])) + {|ToLower(words[i])|}
  {
    assert words[..i + 1][..i] == words[..i];
  }

  /** Stored words are in lower case, so lower-casing a list of them changes nothing. */
  lemma {:induction false} LowerAllOfStored(words: seq<string>, S: set<string>)
    requires forall x :: x in S ==> IsLower(x)
    requires forall x :: x in words ==> x in S
    ensures forall x :: x in LowerAll(words) <==> x in words
  {
    if words != [] {
      var init := words[..|words| - 1];
      forall x | x in init ensures x in S {
        assert x in words;
      }
      LowerAllOfStored(init, S);
      ToLowerFixed(words[|words| - 1]);
      forall x ensures x in words <==> x in init || x == words[|words| - 1] {
        assert words == init + [words[|words| - 1]];
      }
    }
  }

  /**
   * Deleting a word and then every other word with its letters leaves the
   * words without its letters.
   */
  lemma CascadeWords(S: set<string>, w: string, A: set<string>)
    requires forall x :: x in A <==> x in S - {w} && x != w && IsAnagram(x, w)
    ensures (S - {w}) - A == set x | x in S && !IsAnagram(x, w)
  {
    assert IsAnagram(w, w);
  }

  /**
   * Small set identities, kept as lemmas so that the loops using them
   * reason about one instance instead of about set equality in their own,
   * much larger context.
   */
  lemma DiffStep<T>(A: set<T>, B: set<T>, C: set<T>, x: T)
    requires C == B + {x}
    ensures A - C == (A - B) - {x}
  {
  }

  lemma UnionStep<T>(A: set<T>, B: set<T>, C: set<T>, x: T)
    requires C == B + {x}
    ensures A + C == (A + B) + {x}
  {
  }

  /**
   * The store's invariant on its two maps: each word is mapped to exactly the
   * other stored words that are its anagrams (so the relation is symmetric
   * and irreflexive; see IndexProperties), every bucket holds exactly the
   * stored words of its length, every stored word's length has a bucket, and
   * stored words are in lower case.
   */
  ghost predicate Consistent(anagramMap: map<string, set<string>>, sizeMap: map<nat, set<string>>) {
    && IsAnagramIndex(anagramMap)
    && IsBuckets(sizeMap, anagramMap.Keys)
    && (forall w :: w in anagramMap ==> |w| in sizeMap && IsLower(w))
  }

  /**
   * Storing a new lower-case word `w` in its length bucket and in the index,
   * linked both ways to exactly its stored anagrams, keeps the maps consistent.
   */
  lemma InsertConsistent(
    index: map<string, set<string>>, buckets: map<nat, set<string>>,
    m: map<string, set<string>>, sz: map<nat, set<string>>, w: string, anagrams: seq<string>)
    requires Consistent(index, buckets) && w !in index && IsLower(w) && |w| in buckets
    requires forall a :: a in anagrams <==> a in index && IsAnagram(a, w)
    requires sz == buckets[|w| := buckets[|w|] + {w}]
    requires m.Keys == index.Keys + {w}
    requires forall y :: y in m[w] <==> y in anagrams
    requires forall x, y :: x in index ==> (y in m[x] <==> y in index[x] || (y == w && x in anagrams))
    ensures Consistent(m, sz)
  {
    InsertIndex(index, m, w, anagrams);
    BucketsInsert(buckets, index.Keys, w);
    forall x | x in m ensures |x| in sz && IsLower(x) {
      if x != w {
        assert x in index;
      }
    }
  }

  /** The anagram index half of InsertConsistent. */
  lemma InsertIndex(index: map<string, set<string>>, m: map<string, set<string>>, w: string, anagrams: seq<string>)
    requires IsAnagramIndex(index) && w !in index
    requires forall a :: a in anagrams <==> a in index && IsAnagram(a, w)
    requires m.Keys == index.Keys + {w}
    requires forall y :: y in m[w] <==> y in anagrams
    requires forall x, y :: x in index ==> (y in m[x] <==> y in index[x] || (y == w && x in anagrams))
    ensures IsAnagramIndex(m)
  {
    forall a, b | a in m ensures b in m[a] <==> b in m && b != a && IsAnagram(b, a) {
      if a != w {
        assert a in index;
        assert IsAnagram(a, w) <==> IsAnagram(w, a);
      }
    }
  }

  /** Adding a word to the bucket of its length keeps the buckets exact. */
  lemma BucketsInsert(buckets: map<nat, set<string>>, S: set<string>, w: string)
    requires IsBuckets(buckets, S) && |w| in buckets
    ensures IsBuckets(buckets[|w| := buckets[|w|] + {w}], S + {w})
  {
  }

  /**
   * Taking a stored word `w` out of its length bucket, out of the index and
   * out of the anagram set of each of its anagrams keeps the maps consistent,
   * and leaves every other anagram set as it was apart from `w`.
   */
  lemma RemoveConsistent(
    index: map<string, set<string>>, buckets: map<nat, set<string>>,
    m: map<string, set<string>>, sz: map<nat, set<string>>, w: string, anagrams: seq<string>)
    requires Consistent(index, buckets) && w in index
    requires forall a :: a in anagrams <==> a in index[w]
    requires sz == buckets[|w| := buckets[|w|] - {w}]
    requires m.Keys == index.Keys - {w}
    requires forall x, y :: x in m ==> (y in m[x] <==> y in index[x] && !(y == w && x in anagrams))
    ensures forall x, y :: x in m ==> (y in m[x] <==> y in index[x] && y != w)
    ensures Consistent(m, sz)
  {
    forall x, y | x in m ensures y in m[x] <==> y in index[x] && y != w {
      IndexProperties(index, x, w);
    }
    RemoveIndex(index, m, w);
    forall x | x in m ensures |x| in sz && IsLower(x) {
      assert x in index;
    }
  }

  /** The anagram index half of RemoveConsistent. */
  lemma RemoveIndex(index: map<string, set<string>>, m: map<string, set<string>>, w: string)
    requires IsAnagramIndex(index) && w in index
    requires m.Keys == index.Keys - {w}
    requires forall x, y :: x in m ==> (y in m[x] <==> y in index[x] && y != w)
    ensures IsAnagramIndex(m)
  {
    forall a, b | a in m ensures b in m[a] <==> b in m && b != a && IsAnagram(b, a) {
      assert a in index;
    }
  }

  /** Updating a map adds the key to its key set (kept as a lemma for the same reason as DiffStep). */
  lemma KeysInsert<K, V>(m: map<K, V>, k: K, v: V)
    ensures m[k := v].Keys == m.Keys + {k}
  {
  }

  class WordStore {
    var anagramMap: map<string, set<string>>
    var sizeMap: map<nat, set<string>>

    /** The store's invariant (see Consistent). */
    ghost predicate Valid()
      reads this
    {
      Consistent(anagramMap, sizeMap)
    }

    /** The stored words. */
    ghost function Words(): set<string>
      reads this
    {
      anagramMap.Keys
    }

    /** The bucket keys, including those of empty buckets. */
    ghost function Lengths(): set<nat>
      reads this
    {
      sizeMap.Keys
    }

    constructor ()
      ensures Valid() && Words() == {} && Lengths() == {}
    {
      anagramMap := map[];
      sizeMap := map[];
    }

    /**
     * `getAnagrams`: for a stored word, the recorded anagram set; otherwise a
     * scan of the word's length bucket, creating that bucket empty if it is
     * missing. Either way the full answer is the stored anagrams of the
     * lower-cased word, and a limit keeps a `slice(0, limit)` of it.
     */
    method GetAnagrams(word: string, limit: Option<int>) returns (r: seq<string>)
      requires Valid()
      modifies this
      ensures Valid()
      ensures anagramMap == old(anagramMap)
      ensures sizeMap == if |ToLower(word)| in old(sizeMap) then old(sizeMap) else old(sizeMap)[|ToLower(word)| := {}]
      ensures Distinct(r)
      ensures forall x :: x in r ==> x in old(Words()) && x != ToLower(word) && IsAnagram(x, ToLower(word))
      ensures |r| == SliceEnd(|AnagramsAmong(old(Words()), ToLower(word))|, limit)
      ensures limit.None? ==>
        forall x :: x in r <==> x in old(Words()) && x != ToLower(word) && IsAnagram(x, ToLower(word))
    {
      var w := ToLower(word);
      var full: seq<string>;
      if w in anagramMap {
        assert anagramMap[w] == AnagramsAmong(anagramMap.Keys, w);
        full := SetToSeq(anagramMap[w]);
      } else {
        full := ScanBucket(w);
      }
      PrefixOfDistinct(full, SliceEnd(|full|, limit));
      r := full[..SliceEnd(|full|, limit)];
      assert limit.None? ==> r == full;
    }

    /**
     * The fallback of `getAnagrams` for a word that is not stored: make sure
     * its length has a bucket, then keep the bucket's words that are anagrams
     * of it.
     */
    method ScanBucket(w: string) returns (full: seq<string>)
      requires Valid() && w !in anagramMap
      modifies this
      ensures Valid()
      ensures anagramMap == old(anagramMap)
      ensures sizeMap == if |w| in old(sizeMap) then old(sizeMap) else old(sizeMap)[|w| := {}]
      ensures Distinct(full) && |full| == |AnagramsAmong(anagramMap.Keys, w)|
      ensures forall x :: x in full <==> x in anagramMap && x != w && IsAnagram(x, w)
    {
      if |w| !in sizeMap {
        forall x | x in anagramMap ensures |x| != |w| {
          assert |x| in sizeMap;
        }
        sizeMap := sizeMap[|w| := {}];
      }
      var sameSize := SetToSeq(sizeMap[|w|]);
      full := FilterAnagrams(w, sameSize);
      forall x ensures x in full <==> x in AnagramsAmong(anagramMap.Keys, w) {
        if IsAnagram(w, x) {
          AnagramSameLength(x, w);
        }
      }
      DistinctSize(full, AnagramsAmong(anagramMap.Keys, w));
    }

    /**
     * One step of `addWords`: lower-case the word and, unless it is already
     * stored, store it (see Insert).
     */
    method AddWord(word: string)
      requires Valid()
      modifies this
      ensures Valid()
      ensures Words() == old(Words()) + {ToLower(word)}
      ensures Lengths() == old(Lengths()) + {|ToLower(word)|}
      ensures ToLower(word) in old(Words()) ==> anagramMap == old(anagramMap) && sizeMap == old(sizeMap)
    {
      var w := ToLower(word);
      if w in anagramMap {
        return;
      }
      Insert(w);
    }

    /**
     * Storing a lower-case word that is not stored yet: look up its stored
     * anagrams, give it an empty anagram set, add it to its length bucket,
     * and link it both ways to each of the anagrams found.
     */
    method Insert(w: string)
      requires Valid() && w !in anagramMap && IsLower(w)
      modifies this
      ensures Valid()
      ensures Words() == old(Words()) + {w}
      ensures Lengths() == old(Lengths()) + {|w|}
    {
      ToLowerFixed(w);
      var anagrams := GetAnagrams(w, None);
      ghost var index, buckets := anagramMap, sizeMap;
      KeysInsert(index, w, {});
      KeysInsert(buckets, |w|, buckets[|w|] + {w});
      KeysInsert(old(sizeMap), |w|, {});
      anagramMap := anagramMap[w := {}];
      sizeMap := sizeMap[|w| := sizeMap[|w|] + {w}];
      Link(w, anagrams, index);
      InsertConsistent(index, buckets, anagramMap, sizeMap, w, anagrams);
    }

    /**
     * The linking loop of `addWords`: the new word `w` gets each of
     * `anagrams`, and each of them gets `w`.
     */
    method Link(w: string, anagrams: seq<string>, ghost index: map<string, set<string>>)
      requires w !in index && anagramMap == index[w := {}]
      requires forall a :: a in anagrams ==> a in index
      modifies this
      ensures sizeMap == old(sizeMap) && anagramMap.Keys == index.Keys + {w}
      ensures forall y :: y in anagramMap[w] <==> y in anagrams
      ensures forall x, y :: x in index ==> (y in anagramMap[x] <==> y in index[x] || (y == w && x in anagrams))
    {
      for i := 0 to |anagrams|
        invariant sizeMap == old(sizeMap) && anagramMap.Keys == index.Keys + {w}
        invariant forall y :: y in anagramMap[w] <==> y in anagrams[..i]
        invariant forall x, y :: x in index ==>
          (y in anagramMap[x] <==> y in index[x] || (y == w && x in anagrams[..i]))
      {
        var a := anagrams[i];
        assert anagrams[..i + 1] == anagrams[..i] + [a];
        anagramMap := anagramMap[w := anagramMap[w] + {a}];
        anagramMap := anagramMap[a := anagramMap[a] + {w}];
      }
      assert anagrams[..|anagrams|] == anagrams;
    }

    /**
     * `addWords`: each word in turn, so that later words of the batch are
     * linked to earlier ones. Words already stored are skipped, so re-adding
     * stored words changes nothing.
     */
    method AddWords(words: seq<string>)
      requires Valid()
      modifies this
      ensures Valid()
      ensures Words() == old(Words()) + LowerAll(words)
      ensures Lengths() == old(Lengths()) + LengthsOf(LowerAll(words))
      ensures LowerAll(words) <= old(Words()) ==> anagramMap == old(anagramMap) && sizeMap == old(sizeMap)
    {
      for i := 0 to |words|
        invariant Valid()
        invariant Words() == old(Words()) + LowerAll(words[..i])
        invariant Lengths() == old(Lengths()) + LengthsOf(LowerAll(words[..i]))
        invariant LowerAll(words[..i]) <= old(Words()) ==> anagramMap == old(anagramMap) && sizeMap == old(sizeMap)
      {
        AddWord(words[i]);
        LowerAllStep(words, i);
        UnionStep(old(Words()), LowerAll(words[..i]), LowerAll(words[..i + 1]), ToLower(words[i]));
        UnionStep(old(Lengths()), LengthsOf(LowerAll(words[..i])), LengthsOf(LowerAll(words[..i + 1])), |ToLower(words[i])|);
      }
      assert words[..|words|] == words;
    }

    /**
     * The primary removal of `deleteWord`: a stored word leaves its length
     * bucket and the index, and is taken out of every anagram set that held
     * it; a word that is not stored is left alone.
     */
    method RemoveWord(w: string)
      requires Valid()
      modifies this
      ensures Valid()
      ensures Words() == old(Words()) - {w} && Lengths() == old(Lengths())
      ensures forall x, y :: x in Words() ==> (y in anagramMap[x] <==> y in old(anagramMap)[x] && y != w)
      ensures w !in old(Words()) ==> anagramMap == old(anagramMap) && sizeMap == old(sizeMap)
    {
      if w in anagramMap {
        ghost var index, buckets := anagramMap, sizeMap;
        KeysInsert(buckets, |w|, buckets[|w|] - {w});
        sizeMap := sizeMap[|w| := sizeMap[|w|] - {w}];
        var anagrams := SetToSeq(anagramMap[w]);
        forall a | a in anagrams ensures a in index && a != w {
          IndexProperties(index, w, a);
        }
        anagramMap := anagramMap - {w};
        Unlink(w, anagrams, index);
        RemoveConsistent(index, buckets, anagramMap, sizeMap, w, anagrams);
      }
    }

    /**
     * The unlinking loop of `deleteWord`: the removed word `w` is taken out
     * of the anagram set of each of `anagrams`, its former anagrams.
     */
    method Unlink(w: string, anagrams: seq<string>, ghost index: map<string, set<string>>)
      requires anagramMap == index - {w}
      requires forall a :: a in anagrams ==> a in anagramMap
      modifies this
      ensures sizeMap == old(sizeMap) && anagramMap.Keys == index.Keys - {w}
      ensures forall x, y :: x in anagramMap ==>
        (y in anagramMap[x] <==> y in index[x] && !(y == w && x in anagrams))
    {
      for i := 0 to |anagrams|
        invariant sizeMap == old(sizeMap) && anagramMap.Keys == index.Keys - {w}
        invariant forall x, y :: x in anagramMap ==>
          (y in anagramMap[x] <==> y in index[x] && !(y == w && x in anagrams[..i]))
      {
        var a := anagrams[i];
        assert anagrams[..i + 1] == anagrams[..i] + [a];
        anagramMap := anagramMap[a := anagramMap[a] - {w}];
      }
      assert anagrams[..|anagrams|] == anagrams;
    }

    /**
     * `deleteWord`: the primary removal of the lower-cased word and, with
     * `withAnagrams`, the deletion of every stored anagram of it found by the
     * fallback scan after that removal, each without cascading further.
     */
    method DeleteWord(word: string, withAnagrams: bool)
      requires Valid()
      modifies this
      decreases if withAnagrams then 2 else 0
      ensures Valid()
      ensures Words() ==
        if withAnagrams then set x | x in old(Words()) && !IsAnagram(x, ToLower(word))
        else old(Words()) - {ToLower(word)}
      ensures Lengths() == if withAnagrams then old(Lengths()) + {|ToLower(word)|} else old(Lengths())
      ensures !withAnagrams ==>
        forall x, y :: x in Words() ==> (y in anagramMap[x] <==> y in old(anagramMap)[x] && y != ToLower(word))
      ensures !withAnagrams && ToLower(word) !in old(Words()) ==>
        anagramMap == old(anagramMap) && sizeMap == old(sizeMap)
    {
      var w := ToLower(word);
      RemoveWord(w);
      if withAnagrams {
        ghost var S1, sizes1 := anagramMap.Keys, sizeMap;
        ToLowerIdempotent(word);
        var others := GetAnagrams(w, None);
        KeysInsert(sizes1, |w|, {});
        LowerAllOfStored(others, S1);
        DeleteEach(others);
        CascadeWords(old(Words()), w, LowerAll(others));
      }
    }

    /** `forEach(anagram => this.deleteWord(anagram))`: each word deleted in turn, without cascading. */
    method DeleteEach(words: seq<string>)
      requires Valid()
      modifies this
      decreases 1
      ensures Valid()
      ensures Words() == old(Words()) - LowerAll(words) && Lengths() == old(Lengths())
    {
      for j := 0 to |words|
        invariant Valid()
        invariant Words() == old(Words()) - LowerAll(words[..j]) && Lengths() == old(Lengths())
      {
        DeleteWord(words[j], false);
        LowerAllStep(words, j);
        DiffStep(old(Words()), LowerAll(words[..j]), LowerAll(words[..j + 1]), ToLower(words[j]));
      }
      assert words[..|words|] == words;
    }

    /** `deleteAll`: both maps are emptied. */
    method DeleteAll()
      modifies this
      ensures Valid() && Words() == {} && Lengths() == {}
    {
      anagramMap := map[];
      sizeMap := map[];
    }

    /**
     * `getMetrics`: the word count and, when it is non-zero, the least and the
     * greatest bucket key (empty buckets included, as in the source), the
     * median of the stored words' lengths found by walking the buckets in
     * ascending order, and the average length from length times bucket size.
     */
    method GetMetrics() returns (m: Metrics)
      requires Valid()
      ensures m.count == |Words()|
      ensures m.count == 0 ==> m == Metrics(0, None, None, None, None)
      ensures m.count > 0 ==>
        && m.minLength.Some? && IsLeast(m.minLength.value, Lengths())
        && m.maxLength.Some? && IsGreatest(m.maxLength.value, Lengths())
        && |LengthList(sizeMap)| == m.count
        && m.medianLength == Some(MedianOf(LengthList(sizeMap)))
        && m.averageLength == Some(Sum(LengthList(sizeMap)) as real / m.count as real)
    {
      var count := |anagramMap.Keys|;
      if count == 0 {
        return Metrics(0, None, None, None, None);
      }
      var sizes := Ascending(sizeMap.Keys);
      LengthListFacts(sizeMap, anagramMap.Keys);
      var minLength := sizes[0];
      var maxLength := sizes[|sizes| - 1];
      FirstLast(sizes, sizeMap.Keys);
      var median := MedianScan(sizes, sizeMap);
      var totalLength := TotalLength(sizes, sizeMap, |sizes|);
      m := Metrics(count, Some(minLength), Some(maxLength), Some(median), Some(totalLength as real / count as real));
    }
  }

  /** Property names every plain JavaScript object inherits from `Object.prototype`. */
  const InheritedNames: set<string> := {
    "constructor", "hasOwnProperty", "isPrototypeOf", "propertyIsEnumerable",
    "toLocaleString", "toString", "valueOf", "__proto__",
    "__defineGetter__", "__defineSetter__", "__lookupGetter__", "__lookupSetter__"
  }

  /**
   * The source's entry test `this.anagramMap[word]` on a plain object (lines
   * 20-23, 50 and 75): an own key, or an inherited property, which is truthy
   * as well. It agrees with the own-key test except on inherited names.
   */
  function HasEntryAsWritten(anagramMap: map<string, set<string>>, word: string): (r: bool)
    ensures word !in InheritedNames ==> (r <==> word in anagramMap)
    ensures word in anagramMap ==> r
  {
    word in anagramMap || word in InheritedNames
  }

  /**
   * As written, `addWords(["constructor"])` on an empty store skips a proper
   * word that is not stored: the guard finds `Object.prototype.constructor`.
   */
  lemma ConstructorSkippedAsWritten()
    ensures IsProperWord(JsString("constructor"))
    ensures ToLower("constructor") == "constructor"
    ensures HasEntryAsWritten(map[], ToLower("constructor"))
  {
    var c: string := ['c', 'o', 'n', 's', 't', 'r', 'u', 'c', 't', 'o', 'r'];
    assert forall i :: 0 <= i < |c| ==> IsLowerLetter(c[i]);
    assert c == "constructor";
    ToLowerFixed(c);
  }
}
