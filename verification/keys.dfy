/**
 The canonical anagram key of a word: its characters sorted into ascending
 order and put back together. Two words are anagrams exactly when their keys
 are equal, which is what lets the loader group a dictionary by key.
 */
module Keys {

  /** A dictionary token, an opaque string. */
  type Word = seq<char>

  /** Characters in non-decreasing order. */
  predicate Sorted(s: seq<char>)
  {
    forall i, j :: 0 <= i < j < |s| ==> s[i] <= s[j]
  }

  /** Same characters, same number of times each; case and punctuation count. */
  predicate IsAnagram(a: Word, b: Word)
  {
    multiset(a) == multiset(b)
  }

  /** Puts one character into its place in a sorted sequence. */
  function InsertSorted(c: char, s: seq<char>): (r: seq<char>)
    requires Sorted(s)
    ensures Sorted(r)
    ensures multiset(r) == multiset(s) + multiset{c}
    decreases |s|, 1
  {
    if s == [] || c <= s[0] then
      [c] + s
    else
      assert s == [s[0]] + s[1..];
      InsertedAboveHead(c, s);
      ConsSorted(s[0], InsertSorted(c, s[1..]));
      [s[0]] + InsertSorted(c, s[1..])
  }

  /** A character at or below everything in a sorted sequence can go in front of it. */
  lemma ConsSorted(x: char, s: seq<char>)
    requires Sorted(s)
    requires forall k | 0 <= k < |s| :: x <= s[k]
    ensures Sorted([x] + s)
  {
  }

  /** Inserting a character above the head into the tail keeps everything above the head. */
  lemma InsertedAboveHead(c: char, s: seq<char>)
    requires Sorted(s) && s != [] && s[0] < c
    ensures forall k | 0 <= k < |InsertSorted(c, s[1..])| :: s[0] <= InsertSorted(c, s[1..])[k]
    decreases |s|, 0
  {
    var rest := InsertSorted(c, s[1..]);
    forall k | 0 <= k < |rest| ensures s[0] <= rest[k] {
      assert rest[k] in multiset(rest);
      if rest[k] != c {
        assert rest[k] in multiset(s[1..]);
      }
    }
  }

  /** The key of a word: a sorted permutation of its characters. */
  function AlphabeticKey(word: Word): (key: Word)
    ensures Sorted(key)
    ensures multiset(key) == multiset(word)
    ensures |key| == |word|
  {
    if word == [] then
      []
    else
      assert word == [word[0]] + word[1..];
      InsertSorted(word[0], AlphabeticKey(word[1..]))
  }

  /** The first character of a sorted sequence is its least. */
  lemma SortedHeadIsLeast(s: seq<char>, x: char)
    requires Sorted(s)
    requires x in multiset(s)
    ensures s[0] <= x
  {
    var j :| 0 <= j < |s| && s[j] == x;
  }

  /** Two sorted sequences with the same characters start with the same one. */
  lemma SortedSameHead(a: seq<char>, b: seq<char>)
    requires Sorted(a) && Sorted(b)
    requires multiset(a) == multiset(b)
    requires a != []
    ensures b != [] && a[0] == b[0]
  {
    assert a[0] in multiset(b);
    SortedHeadIsLeast(b, a[0]);
    assert b[0] in multiset(a);
    SortedHeadIsLeast(a, b[0]);
  }

  /** Dropping the first character of a sorted sequence leaves it sorted, with one occurrence fewer. */
  lemma SortedTail(s: seq<char>)
    requires Sorted(s) && s != []
    ensures Sorted(s[1..])
    ensures multiset(s[1..]) == multiset(s) - multiset{s[0]}
  {
    assert s == [s[0]] + s[1..];
  }

  /** A sorted sequence is determined by its multiset of characters. */
  lemma {:induction false} SortedUnique(a: seq<char>, b: seq<char>)
    requires Sorted(a) && Sorted(b)
    requires multiset(a) == multiset(b)
    ensures a == b
  {
    if a == [] {
      assert |b| == |multiset(b)| == 0;
    } else {
      SortedSameHead(a, b);
      SortedTail(a);
      SortedTail(b);
      SortedUnique(a[1..], b[1..]);
      assert a == [a[0]] + a[1..];
      assert b == [b[0]] + b[1..];
    }
  }

  /** Two words get the same key exactly when they are anagrams. */
  lemma KeyEqualIffAnagram(a: Word, b: Word)
    ensures AlphabeticKey(a) == AlphabeticKey(b) <==> IsAnagram(a, b)
  {
    if IsAnagram(a, b) {
      SortedUnique(AlphabeticKey(a), AlphabeticKey(b));
    }
  }

  /** An already sorted word is its own key. */
  lemma KeyOfSorted(s: Word)
    requires Sorted(s)
    ensures AlphabeticKey(s) == s
  {
    SortedUnique(AlphabeticKey(s), s);
  }

  /** Taking the key of a key changes nothing. */
  lemma KeyIdempotent(word: Word)
    ensures AlphabeticKey(AlphabeticKey(word)) == AlphabeticKey(word)
  {
    KeyOfSorted(AlphabeticKey(word));
  }

  /** Characters compare by code, so upper case sorts before lower case and is a different key. */
  lemma KeyIsCaseSensitive()
    ensures AlphabeticKey("ba") == "ab"
    ensures AlphabeticKey("Ab") == "Ab"
    ensures !IsAnagram("Ab", "ba")
  {
    KeyEqualIffAnagram("Ab", "ba");
  }
}
