# AnagramBuilder, modelled in Dafny

`AnagramBuilder` reads a dictionary of whitespace-separated words. It files
every word in a hash map under its *alphabetic key*, which is the word's
characters sorted into ascending order. It then logs, as numbered groups,
the lists whose key has the requested length. Words are anagrams of each
other exactly when they share a key, so each group is one class of anagrams.

The model has four modules:

- `Keys` (`keys.dfy`) models `createAlphabeticKey`.
  - `AlphabeticKey` is defined by insertion sort.
  - It is proved to be a sorted permutation of the word, of the same length.
  - A sorted permutation is unique (`SortedUnique`), so any sorting algorithm gives the same key.
  - Equal keys hold exactly when two words are anagrams.
  - Applying the key twice gives the same result as applying it once.
- `Loader` (`loader.dfy`) models `populateFromDictionary`.
  - The hash map is the class `AnagramMap`. Its field `groups` maps each key to its list of words.
  - `Add` performs one get, put-on-first-sight and append step.
  - `PopulateFromDictionary` is the token loop. It is proved to build `Grouped(tokens)`, the tokens filed one at a time.
  - `Grouped` is tied by lemmas to an independent description, `Filter`. Under each key sit exactly the tokens with that key, in input order.
  - No list is empty. Every token's key is present.
  - Flattening the lists over all keys gives back the input multiset. This is the no-drop, no-duplicate property, and it implies that the list lengths sum to the token count.
  - A dictionary that cannot be opened yields an empty map.
- `Reporter` (`reporter.dfy`) models `printAnagrams`.
  - The log output becomes a returned sequence of `Block(group, words)` values.
  - The key-set traversal order is an input: any sequence that lists every key exactly once.
  - The blocks are exactly the lists whose key has the requested length, in traversal order, numbered 1, 2, … with no gaps.
  - Filtering by key length is the same as filtering the dictionary by word length.
- `AnagramBuilder` (`anagram_builder.dfy`) models `main` after its arguments are decoded.
  - `Run` loads, lets `KeySetOrder` choose some traversal of the key set, and reports.
  - Each block is a non-empty anagram class of the requested length.
  - No two blocks are anagrams of each other.
  - Each block is the whole list of the tokens sharing its key, in input order.
  - Together the blocks hold every dictionary word of that length exactly once.
  - A missing dictionary gives no blocks.

## Model

Paths are relative to the repository root.

| member | source | states |
|---|---|---|
| Keys.InsertSorted | problems/src/main/java/in/basic/AnagramBuilder.java:96 | Inserting a character into a sorted sequence gives a sorted sequence with exactly one more occurrence of that character. |
| Keys.AlphabeticKey | problems/src/main/java/in/basic/AnagramBuilder.java:94-98 | The key is in non-decreasing character order, has the same multiset of characters as the word, and has the same length. |
| Keys.SortedUnique | problems/src/main/java/in/basic/AnagramBuilder.java:96 | Two sorted sequences with the same characters are equal. Sorting therefore has a single possible result, whatever algorithm does it. |
| Keys.KeyEqualIffAnagram | problems/src/main/java/in/basic/AnagramBuilder.java:24-26 | Two words have equal keys if and only if they have the same character multiset. |
| Keys.KeyOfSorted | problems/src/main/java/in/basic/AnagramBuilder.java:95-97 | An already sorted word is its own key. |
| Keys.KeyIdempotent | problems/src/main/java/in/basic/AnagramBuilder.java:95-97 | The key of a key is that key. |
| Keys.KeyIsCaseSensitive | problems/src/main/java/in/basic/AnagramBuilder.java:96 | Characters order by code: "ba" keys to "ab", "Ab" keys to itself, and "Ab" and "ba" are not anagrams. |
| Loader.Filter | problems/src/main/java/in/basic/AnagramBuilder.java:61-68 | Reference description of one list: a word is in it exactly when it is a token whose key is the given key, and it is no longer than the input. |
| Loader.GroupOfWithToken | problems/src/main/java/in/basic/AnagramBuilder.java:63-68 | Filing one token appends it to the end of its own key's list, starting from empty on first sight, and leaves every other key's list unchanged. |
| Loader.WithTokenKeepsWellFormed | problems/src/main/java/in/basic/AnagramBuilder.java:63-68 | Filing a token keeps every list non-empty and every stored word under its own key. |
| Loader.WithToken | problems/src/main/java/in/basic/AnagramBuilder.java:63-68 | One filing step adds the token's key to the map's keys when it is seen for the first time, and adds no other key. |
| Loader.GroupedSnoc | problems/src/main/java/in/basic/AnagramBuilder.java:57-69 | Rewriting helper for the fold that models the loop: the map built from the tokens plus one more is one more filing step on the map built so far. |
| Loader.GroupedWellFormed | problems/src/main/java/in/basic/AnagramBuilder.java:61-68 | After loading any tokens, no list is empty and every stored word sits under its own key. |
| Loader.GroupedIsFilter | problems/src/main/java/in/basic/AnagramBuilder.java:57-69 | The list under each key is exactly the tokens with that key, in input order. A key with no tokens has no entry. |
| Loader.GroupedKeys | problems/src/main/java/in/basic/AnagramBuilder.java:65-66 | The map's keys are exactly the keys of the tokens read. |
| Loader.GroupedHoldsEveryToken | problems/src/main/java/in/basic/AnagramBuilder.java:61-68 | Every token read is present in the list under its own key. |
| Loader.FlattenCoversTokens | problems/src/main/java/in/basic/AnagramBuilder.java:57-69 | Concatenating the lists of distinct keys that cover every token's key gives back the input multiset. |
| Loader.LoadKeepsEveryToken | problems/src/main/java/in/basic/AnagramBuilder.java:57-69 | Over any enumeration of the map's keys, the lists together hold the input multiset: nothing is dropped or duplicated, and the list lengths sum to the number of tokens. |
| Loader.AnagramMap.constructor | problems/src/main/java/in/basic/AnagramBuilder.java:55 | A new map is empty and well formed. |
| Loader.AnagramMap.Add | problems/src/main/java/in/basic/AnagramBuilder.java:61-68 | The new map is the old one with the word appended to its key's list, and the list is created on first sight. The map stays well formed. |
| Loader.PopulateFromDictionary | problems/src/main/java/in/basic/AnagramBuilder.java:54-77 | A fresh, well-formed map. It is empty when the dictionary cannot be opened. Otherwise it holds all tokens filed in input order. |
| Reporter.SelectKeys | problems/src/main/java/in/basic/AnagramBuilder.java:81-82 | The selected keys are drawn from the visited keys. |
| Reporter.SelectKeysMembers | problems/src/main/java/in/basic/AnagramBuilder.java:81-82 | A key is selected if and only if it is visited and its length equals the requested length. |
| Reporter.SelectKeysNoDuplicates | problems/src/main/java/in/basic/AnagramBuilder.java:81-82 | Selection from a key set visits each key at most once. |
| Reporter.PrintAnagrams | problems/src/main/java/in/basic/AnagramBuilder.java:79-92 | One block per key of the requested length, in traversal order. The i-th block has group number i + 1 and carries that key's whole list. There are no blocks when no key has the length. |
| Reporter.KeySetOrder | problems/src/main/java/in/basic/AnagramBuilder.java:81 | Produces a traversal that lists every key of the map exactly once. |
| Reporter.OfLength | problems/src/main/java/in/basic/AnagramBuilder.java:82 | Reference description of the output: a word is in it exactly when it is a token of the requested length. |
| Reporter.FilterOfLength | problems/src/main/java/in/basic/AnagramBuilder.java:82 | Dropping the tokens whose length differs from a key's length does not change that key's list. |
| Reporter.ReportedWordsHaveLength | problems/src/main/java/in/basic/AnagramBuilder.java:80-88 | The lists of the keys the reporter selects together hold exactly the input tokens of the requested length, each as often as it was read. |
| AnagramBuilder.GroupIsAnagramClass | problems/src/main/java/in/basic/AnagramBuilder.java:82-88 | In a loaded map, each list is non-empty and all its words have the key's length and are anagrams of one another. |
| AnagramBuilder.GroupsAreDistinctClasses | problems/src/main/java/in/basic/AnagramBuilder.java:61-68 | No word listed under one key is an anagram of any word listed under a different key. |
| AnagramBuilder.BlocksAreAnagramClasses | problems/src/main/java/in/basic/AnagramBuilder.java:81-88 | Blocks that carry the lists of distinct keys of the requested length are non-empty anagram classes of words of that length, and no two blocks are anagrams of each other. |
| AnagramBuilder.BlocksAreFilters | problems/src/main/java/in/basic/AnagramBuilder.java:57-69 | A block carrying the list of a key in the loaded index is non-empty and is exactly the tokens sharing its key, in input order. |
| AnagramBuilder.Run | problems/src/main/java/in/basic/AnagramBuilder.java:37-46 | Whatever the key order: a missing dictionary gives no blocks. Otherwise the blocks are numbered 1..n, each is a non-empty anagram class of the requested length, no two blocks are anagrams, each block is the whole list of the tokens sharing its key in input order, and together they hold the dictionary's words of that length, each as often as it occurs. |

## Left out

- Opening the file and splitting it into tokens (lines 56-59) are not modelled. The dictionary arrives as `Dictionary.Found(tokens)` with the tokens already split by the scanner. A file that cannot be opened is `Dictionary.NotFound`.
- A read error that makes the scanner stop early is not modelled. The tokens are taken to be everything the scanner returned.
- Logging (lines 60, 62, 72 and 83-87) is replaced by the returned `Block` values. The separator lines, the "GROUP n" text and the stack trace are not modelled.
- Argument decoding in `main` (lines 39-40) is left out, because it is library boundary parsing. This covers the "dictionary.txt" and 5 defaults and `Integer.parseInt`. `Run` takes the file's outcome and the length directly. As written, `main` reads `args[0]` and `args[1]` without checking the array's length, so the documented defaults apply only when empty strings are passed. They do not apply when the arguments are missing.
- Hashing and the hash map's key-set iteration order are not modelled. `PrintAnagrams` accepts any traversal that lists each key once. `Run` lets `KeySetOrder` choose one nondeterministically.
- The `Arrays.sort` algorithm (line 96) is replaced by insertion sort. `SortedUnique` shows that the result cannot depend on the algorithm.
- Keys.AlphabeticKey: Java sorts UTF-16 code units, but a Dafny `char` is a Unicode scalar value. The two orders agree on words made of Basic Multilingual Plane characters. They can differ for words containing supplementary characters, which Java sorts by their surrogate halves.
- Keys.KeyEqualIffAnagram: two words are anagrams in the model when they have the same multiset of scalar values. Java groups by the multiset of UTF-16 code units instead. For words with supplementary characters, Java can group words the model keeps apart. For example, U+1F600 U+1D49C and U+1F49C U+1D600 both consist of the code units D83D DE00 D835 DC9C.
- Reporter.PrintAnagrams: the length filter counts scalar values, while `String.length()` (line 82) counts UTF-16 code units. A key with a supplementary character is one longer in Java than in the model. For example, the one-word dictionary U+1D49C is reported by Java for length 2 and by the model for length 1.
- AnagramBuilder.Run: the grouping, ordering and length differences listed above also hold end to end. Its contract is exact only for dictionaries whose words contain no supplementary characters.
- Group lists are held as sequence values in the map, not as shared `ArrayList` objects. Appending through the reference returned by `get` is modelled as replacing that key's entry, so aliasing is not modelled.
- The immutable `Collections.emptyMap()` returned for a missing file is modelled as a fresh, empty `AnagramMap`.
- Reporter.PrintAnagrams: `groupCounter` is a Java `int` but is modelled as an unbounded natural number. A wrap-around would need more than 2^31 - 1 groups.
