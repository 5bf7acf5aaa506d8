/**
 The whole program once its two arguments are known: load the dictionary,
 then report the anagram groups of the requested length.
 */
module AnagramBuilder {
  import opened Keys
  import opened Loader
  import opened Reporter

  /** Every list of a loaded index is one non-empty class of anagrams, of its key's length. */
  lemma GroupIsAnagramClass(groups: map<Word, seq<Word>>, key: Word)
    requires WellFormed(groups)
    requires key in groups
    ensures groups[key] != []
    ensures forall w | w in groups[key] :: |w| == |key| && IsAnagram(w, groups[key][0])
  {
    forall w | w in groups[key] ensures |w| == |key| && IsAnagram(w, groups[key][0]) {
      KeyEqualIffAnagram(w, groups[key][0]);
    }
  }

  /** No word listed under one key of a loaded index is an anagram of a word listed under another. */
  lemma GroupsAreDistinctClasses(groups: map<Word, seq<Word>>, key1: Word, key2: Word)
    requires WellFormed(groups)
    requires key1 in groups && key2 in groups && key1 != key2
    ensures forall w1, w2 | w1 in groups[key1] && w2 in groups[key2] :: !IsAnagram(w1, w2)
  {
    forall w1, w2 | w1 in groups[key1] && w2 in groups[key2] ensures !IsAnagram(w1, w2) {
      KeyEqualIffAnagram(w1, w2);
    }
  }

  /**
   Blocks that carry, numbered in order, the lists of distinct keys of length
   `n` in a loaded index are non-empty anagram classes of words of length
   `n`, no two of them anagrams of each other.
   */
  lemma BlocksAreAnagramClasses(groups: map<Word, seq<Word>>, selected: seq<Word>, blocks: seq<Block>, n: int)
    requires WellFormed(groups)
    requires NoDuplicates(selected)
    requires forall k | k in selected :: k in groups && |k| == n
    requires |blocks| == |selected|
    requires forall i :: 0 <= i < |blocks| ==> blocks[i].words == groups[selected[i]]
    ensures forall i :: 0 <= i < |blocks| ==>
              blocks[i].words != [] &&
              forall w | w in blocks[i].words :: |w| == n && IsAnagram(w, blocks[i].words[0])
    ensures forall i, j :: 0 <= i < j < |blocks| ==> !IsAnagram(blocks[i].words[0], blocks[j].words[0])
  {
    forall i | 0 <= i < |blocks|
      ensures blocks[i].words != []
      ensures forall w | w in blocks[i].words :: |w| == n && IsAnagram(w, blocks[i].words[0])
    {
      assert selected[i] in selected;
      GroupIsAnagramClass(groups, selected[i]);
    }
    forall i, j | 0 <= i < j < |blocks|
      ensures !IsAnagram(blocks[i].words[0], blocks[j].words[0])
    {
      assert selected[i] in selected && selected[j] in selected;
      GroupIsAnagramClass(groups, selected[i]);
      GroupIsAnagramClass(groups, selected[j]);
      GroupsAreDistinctClasses(groups, selected[i], selected[j]);
    }
  }

  /**
   A block carrying the list of a key in the index of `tokens` holds exactly
   the tokens sharing its first word's key, in input order.
   */
  lemma BlocksAreFilters(tokens: seq<Word>, selected: seq<Word>, blocks: seq<Block>)
    requires forall k | k in selected :: k in Grouped(tokens)
    requires |blocks| == |selected|
    requires forall i :: 0 <= i < |blocks| ==> blocks[i].words == Grouped(tokens)[selected[i]]
    ensures forall i :: 0 <= i < |blocks| ==>
              blocks[i].words != [] &&
              blocks[i].words == Filter(tokens, AlphabeticKey(blocks[i].words[0]))
  {
    GroupedWellFormed(tokens);
    forall i | 0 <= i < |blocks|
      ensures blocks[i].words != []
      ensures blocks[i].words == Filter(tokens, AlphabeticKey(blocks[i].words[0]))
    {
      assert selected[i] in selected;
      assert blocks[i].words[0] in Grouped(tokens)[selected[i]];
      GroupedIsFilter(tokens, selected[i]);
    }
  }

  /**
   Runs the loader and then the reporter. Whatever order the index's keys
   are visited in, the blocks are numbered 1, 2, ... with no gaps; each block
   is one non-empty class of anagrams of the requested length; no two blocks
   are anagrams of each other; each block is the whole list of the tokens
   sharing its key, in input order; and together the blocks hold every token
   of that length exactly once. A dictionary that cannot be opened yields no
   blocks.
   */
  method Run(dictionary: Dictionary, anagramLength: int) returns (blocks: seq<Block>)
    ensures dictionary.NotFound? ==> blocks == []
    ensures forall i :: 0 <= i < |blocks| ==> blocks[i].group == i + 1
    ensures forall i :: 0 <= i < |blocks| ==>
              blocks[i].words != [] &&
              forall w | w in blocks[i].words :: |w| == anagramLength && IsAnagram(w, blocks[i].words[0])
    ensures forall i, j :: 0 <= i < j < |blocks| ==> !IsAnagram(blocks[i].words[0], blocks[j].words[0])
    ensures dictionary.Found? ==>
              forall i :: 0 <= i < |blocks| ==>
                blocks[i].words == Filter(dictionary.tokens, AlphabeticKey(blocks[i].words[0]))
    ensures dictionary.Found? ==>
              multiset(AllWords(blocks)) == multiset(OfLength(dictionary.tokens, anagramLength))
  {
    var anagramMap := PopulateFromDictionary(dictionary);
    var groups := anagramMap.groups;
    var keys := KeySetOrder(groups);
    blocks := PrintAnagrams(groups, keys, anagramLength);

    ghost var selected := SelectKeys(keys, anagramLength);
    SelectKeysMembers(keys, anagramLength);
    SelectKeysNoDuplicates(keys, anagramLength);
    BlocksAreAnagramClasses(groups, selected, blocks, anagramLength);
    if dictionary.Found? {
      BlocksAreFilters(dictionary.tokens, selected, blocks);
      AllWordsFlatten(blocks, groups, selected);
      ReportedWordsHaveLength(dictionary.tokens, keys, anagramLength);
    }
  }
}
