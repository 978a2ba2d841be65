/**
 * The anagram relation (`areAnagrams`, WordStore.class.js lines 184-208):
 * two words are anagrams when they hold the same characters the same number
 * of times.
 */
module Signature {

  /** Same multiset of characters. (Equal length follows.) */
  predicate IsAnagram(a: string, b: string) {
    multiset(a) == multiset(b)
  }

  lemma AnagramSameLength(a: string, b: string)
    requires IsAnagram(a, b)
    ensures |a| == |b|
  {
    assert |multiset(a)| == |a| && |multiset(b)| == |b|;
  }

  /** The relation is an equivalence: reflexive, symmetric and transitive. */
  lemma AnagramEquivalence(a: string, b: string, c: string)
    ensures IsAnagram(a, a)
    ensures IsAnagram(a, b) <==> IsAnagram(b, a)
    ensures IsAnagram(a, b) && IsAnagram(b, c) ==> IsAnagram(a, c)
  {
  }

  /** The count recorded for `c`; a character never seen counts zero. */
  function Tally(counts: map<char, int>, c: char): int {
    if c in counts then counts[c] else 0
  }

  /**
   * `areAnagrams`: reject on differing length, count the characters of `w1`,
   * count down with those of `w2`, then check that every count is zero.
   */
  method AreAnagrams(w1: string, w2: string) returns (r: bool)
    ensures r <==> IsAnagram(w1, w2)
    ensures |w1| != |w2| ==> !r
  {
    if |w1| != |w2| {
      AnagramSameLengthContra(w1, w2);
      return false;
    }
    var counts := Count(map[], w1, true);
    counts := Count(counts, w2, false);
    r := AllZero(counts);
    if r {
      assert forall c :: multiset(w1)[c] == multiset(w2)[c] by {
        forall c ensures multiset(w1)[c] == multiset(w2)[c] {
          assert Tally(counts, c) == 0;
        }
      }
    } else {
      var c :| c in counts && counts[c] != 0;
      assert multiset(w1)[c] != multiset(w2)[c];
    }
  }

  /** `n` counted up, or counted down. */
  function Signed(n: nat, up: bool): int {
    if up then n else -(n as int)
  }

  /**
   * One `forEach` over the characters of `w`, counting each character up
   * (`charCounts[char]++`) or down (`charCounts[char]--`); a character not
   * yet recorded starts at zero.
   */
  method Count(start: map<char, int>, w: string, up: bool) returns (counts: map<char, int>)
    ensures forall c :: Tally(counts, c) == Tally(start, c) + Signed(multiset(w)[c], up)
  {
    counts := start;
    for i := 0 to |w|
      invariant forall c :: Tally(counts, c) == Tally(start, c) + Signed(multiset(w[..i])[c], up)
    {
      assert w[..i + 1] == w[..i] + [w[i]];
      counts := counts[w[i] := Tally(counts, w[i]) + if up then 1 else -1];
    }
    assert w[..|w|] == w;
  }

  /** `Object.values(charCounts).every(count => count === 0)`. */
  method AllZero(counts: map<char, int>) returns (r: bool)
    ensures r <==> forall c :: c in counts ==> counts[c] == 0
  {
    var pending := counts.Keys;
    r := true;
    while pending != {} && r
      invariant pending <= counts.Keys
      invariant r <==> forall c :: c in counts && c !in pending ==> counts[c] == 0
      decreases pending
    {
      var c :| c in pending;
      r := counts[c] == 0;
      pending := pending - {c};
    }
  }

  lemma AnagramSameLengthContra(a: string, b: string)
    requires |a| != |b|
    ensures !IsAnagram(a, b)
  {
    if IsAnagram(a, b) {
      AnagramSameLength(a, b);
    }
  }

  lemma ReadLetters() ensures multiset("read") == multiset{'a', 'd', 'e', 'r'} {
    var w := ['r', 'e', 'a', 'd'];
    assert multiset(w) == multiset{'a', 'd', 'e', 'r'};
    assert w == "read";
  }

  lemma DearLetters() ensures multiset("dear") == multiset{'a', 'd', 'e', 'r'} {
    var w := ['d', 'e', 'a', 'r'];
    assert multiset(w) == multiset{'a', 'd', 'e', 'r'};
    assert w == "dear";
  }

  lemma DareLetters() ensures multiset("dare") == multiset{'a', 'd', 'e', 'r'} {
    var w := ['d', 'a', 'r', 'e'];
    assert multiset(w) == multiset{'a', 'd', 'e', 'r'};
    assert w == "dare";
  }

  /** Pairs the unit tests expect to be anagrams. */
  lemma AnagramPositiveExamples()
    ensures IsAnagram("read", "dear") && IsAnagram("dear", "read") && IsAnagram("dear", "dare")
    ensures IsAnagram("abc", "cba") && IsAnagram("abcdefghhh", "abchhhefdg")
  {
    ReadLetters();
    DearLetters();
    DareLetters();
    var abc, cba := ['a', 'b', 'c'], ['c', 'b', 'a'];
    assert multiset(abc) == multiset{'a', 'b', 'c'};
    assert multiset(cba) == multiset{'a', 'b', 'c'};
    assert abc == "abc" && cba == "cba";
    LongLetters();
    ShuffledLetters();
  }

  lemma LongLetters() ensures multiset("abcdefghhh") == multiset{'a', 'b', 'c', 'd', 'e', 'f', 'g', 'h', 'h', 'h'} {
    var w := ['a', 'b', 'c', 'd', 'e', 'f', 'g', 'h', 'h', 'h'];
    assert multiset(w) == multiset{'a', 'b', 'c', 'd', 'e', 'f', 'g', 'h', 'h', 'h'};
    assert w == "abcdefghhh";
  }

  lemma ShuffledLetters() ensures multiset("abchhhefdg") == multiset{'a', 'b', 'c', 'd', 'e', 'f', 'g', 'h', 'h', 'h'} {
    var w := ['a', 'b', 'c', 'h', 'h', 'h', 'e', 'f', 'd', 'g'];
    assert multiset(w) == multiset{'a', 'b', 'c', 'd', 'e', 'f', 'g', 'h', 'h', 'h'};
    assert w == "abchhhefdg";
  }

  /** Pairs the unit tests expect not to be anagrams. */
  lemma AnagramNegativeExamples()
    ensures !IsAnagram("abc", "adf") && !IsAnagram("a", "d")
    ensures !IsAnagram("abrakadabra", "abrakadabre") && !IsAnagram("abrakadabra", "abrakadabr")
  {
    assert "adf"[2] in multiset("adf");
    assert "adf"[2] !in multiset("abc");
    assert 'a' !in multiset("d");
    assert "abrakadabre"[10] in multiset("abrakadabre");
    assert "abrakadabre"[10] !in multiset("abrakadabra");
    AnagramSameLengthContra("abrakadabra", "abrakadabr");
  }
}
