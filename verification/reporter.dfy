/**
 The reporter: walks the keys of the loaded index and, for every key of the
 requested length, emits one block made of a group number and that key's
 tokens. Numbers start at 1 and advance only when a block is emitted. The
 blocks are returned instead of being written to a log.
 */
module Reporter {
  import opened Keys
  import opened Loader

  /** One emitted group: its number and its tokens. */
  datatype Block = Block(group: nat, words: seq<Word>)

  /** The keys of length `n`, in the order given. */
  function SelectKeys(keys: seq<Word>, n: int): (selected: seq<Word>)
    ensures forall k | k in selected :: k in keys
  {
    if keys == [] then
      []
    else
      var last := keys[|keys| - 1];
      assert keys == keys[..|keys| - 1] + [last];
      SelectKeys(keys[..|keys| - 1], n) + (if |last| == n then [last] else [])
  }

  /** A key is selected exactly when it is visited and has the requested length. */
  lemma {:induction false} SelectKeysMembers(keys: seq<Word>, n: int)
    ensures forall k :: k in SelectKeys(keys, n) <==> k in keys && |k| == n
  {
    if keys != [] {
      var init := keys[..|keys| - 1];
      assert keys == init + [keys[|keys| - 1]];
      SelectKeysMembers(init, n);
    }
  }

  /** Visiting one more key selects it exactly when it has the requested length. */
  lemma SelectKeysSnoc(keys: seq<Word>, i: nat, n: int)
    requires i < |keys|
    ensures SelectKeys(keys[..i + 1], n) == SelectKeys(keys[..i], n) + (if |keys[i]| == n then [keys[i]] else [])
  {
    assert keys[..i + 1][..i] == keys[..i];
  }

  /** Selecting keeps keys distinct. */
  lemma {:induction false} SelectKeysNoDuplicates(keys: seq<Word>, n: int)
    requires NoDuplicates(keys)
    ensures NoDuplicates(SelectKeys(keys, n))
  {
    if keys != [] {
      var init, last := keys[..|keys| - 1], keys[|keys| - 1];
      assert NoDuplicates(init) by {
        forall i, j | 0 <= i < j < |init| ensures init[i] != init[j] {
          assert init[i] == keys[i] && init[j] == keys[j];
        }
      }
      assert last !in init by {
        forall j | 0 <= j < |init| ensures init[j] != last {
          assert init[j] == keys[j];
        }
      }
      SelectKeysNoDuplicates(init, n);
    }
  }

  /**
   Emits one block per key of length `maxLength`, in the order the keys are
   visited, numbering the blocks 1, 2, ... with no gaps. `keys` is the
   traversal order of the index's key set.
   */
  method PrintAnagrams(groups: map<Word, seq<Word>>, keys: seq<Word>, maxLength: int) returns (blocks: seq<Block>)
    requires IsEnumeration(keys, groups.Keys)
    ensures |blocks| == |SelectKeys(keys, maxLength)|
    ensures forall i :: 0 <= i < |blocks| ==>
              blocks[i] == Block(i + 1, groups[SelectKeys(keys, maxLength)[i]])
    ensures (forall k | k in groups :: |k| != maxLength) ==> blocks == []
  {
    blocks := [];
    var groupCounter := 1;
    ghost var selected: seq<Word> := [];
    for i := 0 to |keys|
      invariant selected == SelectKeys(keys[..i], maxLength)
      invariant groupCounter == |blocks| + 1
      invariant forall k | k in selected :: k in groups
      invariant |blocks| == |selected|
      invariant forall j :: 0 <= j < |blocks| ==> blocks[j] == Block(j + 1, groups[selected[j]])
    {
      SelectKeysSnoc(keys, i, maxLength);
      var anagramKey := keys[i];
      assert anagramKey in groups;
      if |anagramKey| == maxLength {
        blocks := blocks + [Block(groupCounter, groups[anagramKey])];
        groupCounter := groupCounter + 1;
        selected := selected + [anagramKey];
      }
    }
    assert keys[..|keys|] == keys;
    if blocks != [] {
      SelectKeysMembers(keys, maxLength);
      assert selected[0] in selected;
    }
  }

  /**
   Visits the keys of a map in some order, each exactly once; the order is
   left open, as is the iteration order of a hash map's key set.
   */
  method KeySetOrder(groups: map<Word, seq<Word>>) returns (keys: seq<Word>)
    ensures IsEnumeration(keys, groups.Keys)
  {
    keys := [];
    var remaining := groups.Keys;
    while remaining != {}
      invariant remaining <= groups.Keys
      invariant NoDuplicates(keys)
      invariant forall k | k in keys :: k in groups && k !in remaining
      invariant forall k | k in groups :: k in keys || k in remaining
      decreases |remaining|
    {
      var k :| k in remaining;
      keys := keys + [k];
      remaining := remaining - {k};
    }
  }

  /** The tokens of all blocks, one block after another. */
  function AllWords(blocks: seq<Block>): seq<Word>
  {
    if blocks == [] then [] else blocks[0].words + AllWords(blocks[1..])
  }

  /** The tokens of length `n`, in input order. */
  function OfLength(tokens: seq<Word>, n: int): (r: seq<Word>)
    ensures forall w :: w in r <==> w in tokens && |w| == n
  {
    if tokens == [] then
      []
    else
      var last := tokens[|tokens| - 1];
      assert tokens == tokens[..|tokens| - 1] + [last];
      OfLength(tokens[..|tokens| - 1], n) + (if |last| == n then [last] else [])
  }

  /** Blocks that carry the groups of `selected` in order hold exactly the flattened groups. */
  lemma {:induction false} AllWordsFlatten(blocks: seq<Block>, groups: map<Word, seq<Word>>, selected: seq<Word>)
    requires |blocks| == |selected|
    requires forall i :: 0 <= i < |blocks| ==> selected[i] in groups && blocks[i].words == groups[selected[i]]
    ensures AllWords(blocks) == Flatten(groups, selected)
  {
    if blocks != [] {
      AllWordsFlatten(blocks[1..], groups, selected[1..]);
    }
  }

  /** A key of length `n` groups the same tokens whether or not the tokens of other lengths are present. */
  lemma {:induction false} FilterOfLength(tokens: seq<Word>, key: Word)
    ensures Filter(OfLength(tokens, |key|), key) == Filter(tokens, key)
  {
    if tokens != [] {
      var init, last := tokens[..|tokens| - 1], tokens[|tokens| - 1];
      var n := |key|;
      assert tokens == init + [last];
      FilterOfLength(init, key);
      FilterSnoc(init, last, key);
      if |last| == n {
        assert OfLength(tokens, n) == OfLength(init, n) + [last];
        FilterSnoc(OfLength(init, n), last, key);
      } else {
        assert OfLength(tokens, n) == OfLength(init, n);
        assert |AlphabeticKey(last)| != |key|;
      }
    }
  }

  /** Flattening keys of length `n` sees the same lists in the index of the whole input and of its length-`n` tokens. */
  lemma {:induction false} FlattenOfLength(tokens: seq<Word>, selected: seq<Word>, n: int)
    requires forall k | k in selected :: |k| == n
    ensures Flatten(Grouped(tokens), selected) == Flatten(Grouped(OfLength(tokens, n)), selected)
  {
    if selected != [] {
      var key := selected[0];
      assert key in selected;
      GroupedIsFilter(tokens, key);
      GroupedIsFilter(OfLength(tokens, n), key);
      FilterOfLength(tokens, key);
      FlattenOfLength(tokens, selected[1..], n);
    }
  }

  /**
   Filtering by key length is filtering by word length: visiting the loaded
   index's keys of length `n` sees exactly the input tokens of length `n`,
   each once.
   */
  lemma ReportedWordsHaveLength(tokens: seq<Word>, keys: seq<Word>, n: int)
    requires IsEnumeration(keys, Grouped(tokens).Keys)
    ensures multiset(Flatten(Grouped(tokens), SelectKeys(keys, n))) == multiset(OfLength(tokens, n))
  {
    var selected := SelectKeys(keys, n);
    SelectKeysMembers(keys, n);
    SelectKeysNoDuplicates(keys, n);
    GroupedHoldsEveryToken(tokens);
    forall t | t in OfLength(tokens, n) ensures AlphabeticKey(t) in selected {
      assert t in tokens;
    }
    FlattenOfLength(tokens, selected, n);
    FlattenCoversTokens(OfLength(tokens, n), selected);
  }
}
