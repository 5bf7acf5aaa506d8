/**
 The loader: reads the dictionary token by token and files every token under
 its alphabetic key, creating a key's list the first time the key is seen and
 appending to it afterwards. The map it fills is the AnagramMap class below;
 what the loop builds is pinned down by the value-level function Grouped.
 */
module Loader {
  import opened Keys

  /** What opening the dictionary yields: its whitespace-separated tokens, or nothing. */
  datatype Dictionary = NotFound | Found(tokens: seq<Word>)

  /** The list stored under a key, or the empty list where the map has none. */
  function GroupOf(groups: map<Word, seq<Word>>, key: Word): seq<Word>
  {
    if key in groups then groups[key] else []
  }

  /** Every list is non-empty and holds only words whose key is the one it is filed under. */
  predicate WellFormed(groups: map<Word, seq<Word>>)
  {
    forall key | key in groups ::
      groups[key] != [] && forall w | w in groups[key] :: AlphabeticKey(w) == key
  }

  /** The tokens whose key is `key`, in input order. */
  function Filter(tokens: seq<Word>, key: Word): (r: seq<Word>)
    ensures forall w :: w in r <==> w in tokens && AlphabeticKey(w) == key
    ensures |r| <= |tokens|
  {
    if tokens == [] then
      []
    else
      var last := tokens[|tokens| - 1];
      assert tokens == tokens[..|tokens| - 1] + [last];
      Filter(tokens[..|tokens| - 1], key) + (if AlphabeticKey(last) == key then [last] else [])
  }

  /** The keys of the tokens. */
  function KeysOf(tokens: seq<Word>): set<Word>
  {
    set t | t in tokens :: AlphabeticKey(t)
  }

  /**
   The map after filing one token: the token is appended to the list of its
   key, which starts out empty the first time the key is seen; no other entry
   changes.
   */
  function WithToken(groups: map<Word, seq<Word>>, token: Word): (r: map<Word, seq<Word>>)
    ensures r.Keys == groups.Keys + {AlphabeticKey(token)}
  {
    groups[AlphabeticKey(token) := GroupOf(groups, AlphabeticKey(token)) + [token]]
  }

  /** The index the loader builds: the tokens filed one at a time, in input order. */
  function Grouped(tokens: seq<Word>): map<Word, seq<Word>>
  {
    if tokens == [] then map[] else WithToken(Grouped(tokens[..|tokens| - 1]), tokens[|tokens| - 1])
  }

  /** Filing a token appends it to the list of its own key and to no other list. */
  lemma GroupOfWithToken(groups: map<Word, seq<Word>>, token: Word, key: Word)
    ensures GroupOf(WithToken(groups, token), key)
         == GroupOf(groups, key) + (if AlphabeticKey(token) == key then [token] else [])
  {
  }

  /** Filing a token keeps every list non-empty and every token under its own key. */
  lemma WithTokenKeepsWellFormed(groups: map<Word, seq<Word>>, token: Word)
    requires WellFormed(groups)
    ensures WellFormed(WithToken(groups, token))
  {
    var key := AlphabeticKey(token);
    var updated := WithToken(groups, token);
    forall k | k in updated
      ensures updated[k] != [] && forall w | w in updated[k] :: AlphabeticKey(w) == k
    {
      if k == key {
        forall w | w in updated[k] ensures AlphabeticKey(w) == k {
          if w != token {
            assert w in GroupOf(groups, key);
          }
        }
      }
    }
  }

  /** Reading one more token files it into the index of the tokens before it. */
  lemma GroupedSnoc(tokens: seq<Word>, t: Word)
    ensures Grouped(tokens + [t]) == WithToken(Grouped(tokens), t)
  {
    assert (tokens + [t])[..|tokens|] == tokens;
  }

  /** The index of one more prefix token is the index of the prefix with that token filed. */
  lemma GroupedPrefix(tokens: seq<Word>, i: nat)
    requires i < |tokens|
    ensures Grouped(tokens[..i + 1]) == WithToken(Grouped(tokens[..i]), tokens[i])
  {
    assert tokens[..i + 1][..i] == tokens[..i];
  }

  /** After loading, no list is empty and every stored token sits under its own key. */
  lemma {:induction false} GroupedWellFormed(tokens: seq<Word>)
    ensures WellFormed(Grouped(tokens))
  {
    if tokens != [] {
      GroupedWellFormed(tokens[..|tokens| - 1]);
      WithTokenKeepsWellFormed(Grouped(tokens[..|tokens| - 1]), tokens[|tokens| - 1]);
    }
  }

  /**
   Under every key, the loaded index holds exactly the tokens with that key,
   in the order they were read; a key no token has gets no list.
   */
  lemma {:induction false} GroupedIsFilter(tokens: seq<Word>, key: Word)
    ensures GroupOf(Grouped(tokens), key) == Filter(tokens, key)
  {
    if tokens != [] {
      var init, last := tokens[..|tokens| - 1], tokens[|tokens| - 1];
      assert tokens == init + [last];
      GroupedIsFilter(init, key);
      GroupOfWithToken(Grouped(init), last, key);
      FilterSnoc(init, last, key);
    }
  }

  /** The keys present after loading are exactly the keys of the tokens read. */
  lemma {:induction false} GroupedKeys(tokens: seq<Word>)
    ensures Grouped(tokens).Keys == KeysOf(tokens)
  {
    if tokens != [] {
      var init, last := tokens[..|tokens| - 1], tokens[|tokens| - 1];
      assert tokens == init + [last];
      GroupedKeys(init);
      KeysOfSnoc(init, last);
    }
  }

  /** After loading, every token read is stored, under its own key. */
  lemma GroupedHoldsEveryToken(tokens: seq<Word>)
    ensures forall t | t in tokens :: AlphabeticKey(t) in Grouped(tokens) && t in Grouped(tokens)[AlphabeticKey(t)]
  {
    forall t | t in tokens
      ensures AlphabeticKey(t) in Grouped(tokens) && t in Grouped(tokens)[AlphabeticKey(t)]
    {
      GroupedIsFilter(tokens, AlphabeticKey(t));
    }
  }

  /** Reading one more token extends the tokens of its own key and of no other. */
  lemma FilterSnoc(tokens: seq<Word>, t: Word, key: Word)
    ensures Filter(tokens + [t], key) == Filter(tokens, key) + (if AlphabeticKey(t) == key then [t] else [])
  {
    assert (tokens + [t])[..|tokens|] == tokens;
  }

  /** Reading one more token adds its key to the keys seen. */
  lemma KeysOfSnoc(tokens: seq<Word>, t: Word)
    ensures KeysOf(tokens + [t]) == KeysOf(tokens) + {AlphabeticKey(t)}
  {
    forall k | k in KeysOf(tokens + [t]) ensures k in KeysOf(tokens) + {AlphabeticKey(t)} {
      var u :| u in tokens + [t] && AlphabeticKey(u) == k;
      if u != t {
        assert u in tokens;
      }
    }
    forall k | k in KeysOf(tokens) ensures k in KeysOf(tokens + [t]) {
      var u :| u in tokens && AlphabeticKey(u) == k;
      assert u in tokens + [t];
    }
    assert t in tokens + [t];
  }

  /** True when no element occurs twice. */
  predicate NoDuplicates(s: seq<Word>)
  {
    forall i, j :: 0 <= i < j < |s| ==> s[i] != s[j]
  }

  /** Without duplicates, the first element does not recur and the rest has none either. */
  lemma NoDuplicatesTail(s: seq<Word>)
    requires NoDuplicates(s) && s != []
    ensures NoDuplicates(s[1..]) && s[0] !in s[1..]
  {
    forall j | 0 <= j < |s[1..]| ensures s[1..][j] != s[0] {
      assert s[1..][j] == s[j + 1];
    }
  }

  /** `keys` lists every element of `domain` exactly once, as iterating a key set does. */
  predicate IsEnumeration(keys: seq<Word>, domain: set<Word>)
  {
    && NoDuplicates(keys)
    && (forall k | k in keys :: k in domain)
    && (forall k | k in domain :: k in keys)
  }

  /** The lists of `groups` under `keys`, one after another. */
  function Flatten(groups: map<Word, seq<Word>>, keys: seq<Word>): seq<Word>
  {
    if keys == [] then [] else GroupOf(groups, keys[0]) + Flatten(groups, keys[1..])
  }

  /** One more token adds one occurrence to the flattened lists when its key is visited, none otherwise. */
  lemma {:induction false} FlattenSnoc(tokens: seq<Word>, t: Word, keys: seq<Word>)
    requires NoDuplicates(keys)
    ensures multiset(Flatten(Grouped(tokens + [t]), keys))
         == multiset(Flatten(Grouped(tokens), keys))
          + (if AlphabeticKey(t) in keys then multiset{t} else multiset{})
  {
    if keys != [] {
      var key, rest := keys[0], keys[1..];
      assert keys == [key] + rest;
      NoDuplicatesTail(keys);
      GroupedSnoc(tokens, t);
      GroupOfWithToken(Grouped(tokens), t, key);
      FlattenSnoc(tokens, t, rest);
    }
  }

  /** Visiting each key of the input once sees every token exactly once. */
  lemma {:induction false} FlattenCoversTokens(tokens: seq<Word>, keys: seq<Word>)
    requires NoDuplicates(keys)
    requires forall t | t in tokens :: AlphabeticKey(t) in keys
    ensures multiset(Flatten(Grouped(tokens), keys)) == multiset(tokens)
  {
    if tokens == [] {
      FlattenOfEmpty(keys);
    } else {
      var init, last := tokens[..|tokens| - 1], tokens[|tokens| - 1];
      assert tokens == init + [last];
      FlattenCoversTokens(init, keys);
      FlattenSnoc(init, last, keys);
    }
  }

  /** Nothing is flattened out of an empty input. */
  lemma {:induction false} FlattenOfEmpty(keys: seq<Word>)
    ensures Flatten(Grouped([]), keys) == []
  {
    if keys != [] {
      FlattenOfEmpty(keys[1..]);
    }
  }

  /**
   No token is dropped or duplicated by loading: walking the finished map in
   any key order sees exactly the input tokens, so the list lengths add up to
   the number of tokens read.
   */
  lemma LoadKeepsEveryToken(tokens: seq<Word>, keys: seq<Word>)
    requires IsEnumeration(keys, Grouped(tokens).Keys)
    ensures multiset(Flatten(Grouped(tokens), keys)) == multiset(tokens)
    ensures |Flatten(Grouped(tokens), keys)| == |tokens|
  {
    GroupedHoldsEveryToken(tokens);
    FlattenCoversTokens(tokens, keys);
    assert |multiset(Flatten(Grouped(tokens), keys))| == |multiset(tokens)|;
  }

  /** The key-to-tokens map of the dictionary, updated in place as tokens are read. */
  class AnagramMap {
    var groups: map<Word, seq<Word>>

    ghost predicate Valid()
      reads this
    {
      WellFormed(groups)
    }

    constructor ()
      ensures Valid() && groups == map[]
    {
      groups := map[];
    }

    /**
     Files one token: looks its key up, puts an empty list under the key on
     first sight, and appends the token to that list.
     */
    method Add(word: Word)
      requires Valid()
      modifies this
      ensures Valid()
      ensures groups == WithToken(old(groups), word)
    {
      var alphabeticKey := AlphabeticKey(word);
      // The list already filed under the key, or a new empty one on first sight.
      var anagrams := GroupOf(groups, alphabeticKey);
      WithTokenKeepsWellFormed(groups, word);
      groups := groups[alphabeticKey := anagrams + [word]];
    }
  }

  /**
   Builds the index of the dictionary: one Add per token, in input order. A
   dictionary that cannot be opened gives the empty index.
   */
  method PopulateFromDictionary(dictionary: Dictionary) returns (anagramMap: AnagramMap)
    ensures fresh(anagramMap) && anagramMap.Valid()
    ensures anagramMap.groups == match dictionary
                                 case NotFound => map[]
                                 case Found(tokens) => Grouped(tokens)
  {
    anagramMap := new AnagramMap();
    match dictionary
    case NotFound =>
      return;
    case Found(tokens) =>
      var i := 0;
      while i < |tokens|
        invariant 0 <= i <= |tokens|
        invariant anagramMap.Valid()
        invariant anagramMap.groups == Grouped(tokens[..i])
      {
        GroupedPrefix(tokens, i);
        anagramMap.Add(tokens[i]);
        i := i + 1;
      }
      assert tokens[..i] == tokens;
  }
}
