/**
 * The `Tokenizer` class: a word-level tokenizer whose vocabulary is rebuilt
 * from scratch by every `encode` call and read back by `decode`.
 */
module CustomEmbedding {
  import opened Text
  import opened Vocabulary

  /** The placeholder `decode` puts where an id has no word. */
  const Unknown: string := "<UNK>"

  datatype Error = VocabularyNotBuilt

  datatype Result<T> = Success(value: T) | Failure(error: Error)

  datatype Option<T> = None | Some(value: T)

  /** The bundle `encode` returns. */
  datatype EncodeResult = EncodeResult(
    tokenIds: seq<int>,
    words: seq<string>,
    originalText: string,
    cleanedText: string,
    vocabularySize: int,
    tokenCount: int)

  /** What `showVocabulary` reports: the (word, id) entries sorted by id, and the vocabulary size. */
  datatype Listing = Listing(entries: seq<(string, int)>, size: int)

  /** The `tokenIds.map(...)` step of `decode`: each id's word, or the placeholder. */
  function LookupAll(reverseVocab: map<int, string>, tokenIds: seq<int>): (r: seq<string>)
    ensures |r| == |tokenIds|
    ensures forall i :: 0 <= i < |r| ==>
      r[i] == if tokenIds[i] in reverseVocab then reverseVocab[tokenIds[i]] else Unknown
  {
    if tokenIds == [] then []
    else
      [if tokenIds[0] in reverseVocab then reverseVocab[tokenIds[0]] else Unknown]
      + LookupAll(reverseVocab, tokenIds[1..])
  }

  /** The `words.map(...)` step of `encode`: each word's id, or -1 for a word the vocabulary lacks. */
  function IdsOf(vocabulary: map<string, int>, words: seq<string>): (r: seq<int>)
    ensures |r| == |words|
    ensures forall i :: 0 <= i < |r| ==>
      r[i] == if words[i] in vocabulary then vocabulary[words[i]] else -1
  {
    if words == [] then []
    else [if words[0] in vocabulary then vocabulary[words[0]] else -1] + IdsOf(vocabulary, words[1..])
  }

  /** The ids 0 .. n - 1 paired with their words, in ascending id order. */
  function EntriesById(reverseVocab: map<int, string>, n: nat): (r: seq<(string, int)>)
    requires forall i :: 0 <= i < n ==> i in reverseVocab
    ensures |r| == n
    ensures forall i :: 0 <= i < n ==> r[i] == (reverseVocab[i], i)
  {
    if n == 0 then [] else EntriesById(reverseVocab, n - 1) + [(reverseVocab[n - 1], n - 1)]
  }

  /** `vocab` and `rev` are inverse bijections between `ws` and the ids 0 .. |ws| - 1. */
  ghost predicate Bijection(vocab: map<string, int>, rev: map<int, string>, ws: seq<string>) {
    && |vocab| == |rev| == |ws|
    && Distinct(ws)
    && (forall i :: 0 <= i < |ws| ==> ws[i] != [] && ws[i] in vocab && vocab[ws[i]] == i)
    && (forall i :: 0 <= i < |ws| ==> i in rev && rev[i] == ws[i])
    && (forall w :: w in vocab ==> 0 <= vocab[w] < |ws| && ws[vocab[w]] == w)
    && (forall k :: k in rev ==> 0 <= k < |ws|)
  }

  /** One step of the `forEach` in `buildVocabulary`: a new word gets the next id. */
  lemma BijectionAdd(vocab: map<string, int>, rev: map<int, string>, ws: seq<string>, word: string)
    requires Bijection(vocab, rev, ws) && word != [] && word !in ws
    ensures Bijection(vocab[word := |ws|], rev[|ws| := word], ws + [word])
  {
    assert word !in vocab;
    assert |ws| !in rev;
    var ws' := ws + [word];
    assert forall i :: 0 <= i < |ws| ==> ws'[i] == ws[i];
  }

  lemma BijectionKeys(vocab: map<string, int>, rev: map<int, string>, ws: seq<string>)
    requires Bijection(vocab, rev, ws)
    ensures forall w :: w in vocab <==> w in ws
  {
    forall w | w in ws ensures w in vocab {
      var i :| 0 <= i < |ws| && ws[i] == w;
    }
  }

  /** Mapping words through `vocab` and back through `rev` gives the words again. */
  lemma {:induction false} LookupInverse(vocab: map<string, int>, rev: map<int, string>, ws: seq<string>,
                                         words: seq<string>, ids: seq<int>)
    requires Bijection(vocab, rev, ws)
    requires |ids| == |words|
    requires forall i :: 0 <= i < |words| ==> words[i] in vocab && ids[i] == vocab[words[i]]
    ensures LookupAll(rev, ids) == words
    decreases |words|
  {
    if words != [] {
      LookupInverse(vocab, rev, ws, words[1..], ids[1..]);
    }
  }

  /** Every id `encode` hands out is in range, and equal ids mean equal words. */
  lemma EncodedIds(vocab: map<string, int>, rev: map<int, string>, ws: seq<string>,
                   words: seq<string>, ids: seq<int>)
    requires Bijection(vocab, rev, ws)
    requires |ids| == |words|
    requires forall i :: 0 <= i < |words| ==> words[i] in vocab && ids[i] == vocab[words[i]]
    ensures forall i :: 0 <= i < |ids| ==> 0 <= ids[i] < |vocab|
    ensures forall i, j :: 0 <= i < |words| && 0 <= j < |words| ==> (words[i] == words[j] <==> ids[i] == ids[j])
    ensures LookupAll(rev, ids) == words
  {
    forall i, j | 0 <= i < |words| && 0 <= j < |words| && ids[i] == ids[j]
      ensures words[i] == words[j]
    {
      assert ws[vocab[words[i]]] == words[i];
      assert ws[vocab[words[j]]] == words[j];
    }
    LookupInverse(vocab, rev, ws, words, ids);
  }

  /**
   * One turn of the loop in `buildVocabulary` over the distinct words `u`: a
   * non-empty word is new, and numbering it next keeps the bijection.
   */
  lemma BuildStep(vocab: map<string, int>, rev: map<int, string>, ws: seq<string>, u: seq<string>, i: nat)
    requires Distinct(u) && i < |u|
    requires Bijection(vocab, rev, ws) && ws == NonEmpty(u[..i])
    ensures u[i] == [] ==> ws == NonEmpty(u[..i + 1])
    ensures u[i] != [] ==> ws + [u[i]] == NonEmpty(u[..i + 1])
    ensures u[i] != [] ==> Bijection(vocab[u[i] := |ws|], rev[|ws| := u[i]], ws + [u[i]])
  {
    assert u[..i + 1] == u[..i] + [u[i]];
    NonEmptyConcat(u[..i], [u[i]]);
    NonEmptySingle(u[i]);
    if u[i] != [] {
      assert u[i] !in ws by {
        assert forall j :: 0 <= j < i ==> u[j] != u[i];
        assert forall x :: x in ws ==> x in u[..i];
      }
      BijectionAdd(vocab, rev, ws, u[i]);
    }
  }

  /** What the finished loop of `buildVocabulary(words)` leaves in the two maps. */
  lemma BuiltVocabulary(vocab: map<string, int>, rev: map<int, string>, ws: seq<string>, words: seq<string>)
    requires Bijection(vocab, rev, ws) && ws == VocabWords(words)
    ensures forall w :: w in vocab <==> w in words && w != []
    ensures forall k :: 0 <= k < |words| && words[k] != [] && words[k] !in words[..k] ==>
      vocab[words[k]] == |VocabWords(words[..k])|
  {
    VocabWordsSpec(words);
    BijectionKeys(vocab, rev, ws);
    forall k | 0 <= k < |words| && words[k] != [] && words[k] !in words[..k]
      ensures vocab[words[k]] == |VocabWords(words[..k])|
    {
      FirstOccurrenceId(words, k);
    }
  }

  /**
   * The `words.map(...)` step of `encode` over a vocabulary built from those
   * words: no word misses, and the ids are exactly the vocabulary's.
   */
  lemma TokenIds(vocab: map<string, int>, rev: map<int, string>, ws: seq<string>,
                 words: seq<string>, ids: seq<int>)
    requires Bijection(vocab, rev, ws) && ws == VocabWords(words)
    requires forall w :: w in vocab <==> w in words && w != []
    requires forall i :: 0 <= i < |words| ==> IsWord(words[i])
    requires |ids| == |words|
    requires forall i :: 0 <= i < |words| ==> ids[i] == if words[i] in vocab then vocab[words[i]] else -1
    ensures forall i :: 0 <= i < |words| ==> words[i] in vocab && ids[i] == vocab[words[i]]
    ensures forall i :: 0 <= i < |ids| ==> 0 <= ids[i] < |vocab|
    ensures forall i, j :: 0 <= i < |words| && 0 <= j < |words| ==> (words[i] == words[j] <==> ids[i] == ids[j])
    ensures LookupAll(rev, ids) == words
    ensures forall k :: k in rev ==> IsWord(rev[k])
  {
    forall i | 0 <= i < |words| ensures words[i] in vocab {
      assert words[i] in words;
    }
    EncodedIds(vocab, rev, ws, words, ids);
    VocabOfTokens(rev, ws, words);
  }

  /** The words of a vocabulary built from tokens are tokens themselves. */
  lemma VocabOfTokens(rev: map<int, string>, ws: seq<string>, words: seq<string>)
    requires ws == VocabWords(words)
    requires forall k :: k in rev ==> 0 <= k < |ws| && rev[k] == ws[k]
    requires forall i :: 0 <= i < |words| ==> IsWord(words[i])
    ensures forall k :: k in rev ==> IsWord(rev[k])
  {
    VocabWordsSpec(words);
    forall k | k in rev ensures IsWord(rev[k]) {
      assert ws[k] in ws;
      var i :| 0 <= i < |words| && words[i] == ws[k];
    }
  }

  lemma UnknownIsWord()
    ensures IsWord(Unknown)
  {
    forall j | 0 <= j < |Unknown| ensures !IsSpace(Unknown[j]) {
      assert j == 0 || j == 1 || j == 2 || j == 3 || j == 4;
    }
  }

  class Tokenizer {
    var vocabulary: map<string, int>
    var reverseVocab: map<int, string>
    var nextTokenId: int
    var isVocabularyBuilt: bool
    /** The vocabulary in id order: the word with id i is Words[i]. */
    ghost var Words: seq<string>

    /** The two maps are inverse bijections between Words and the ids 0 .. nextTokenId - 1. */
    ghost predicate Consistent()
      reads this
    {
      nextTokenId == |Words| && Bijection(vocabulary, reverseVocab, Words)
    }

    /** The object invariant: consistent maps, and no vocabulary unless one was built. */
    ghost predicate Valid()
      reads this
    {
      Consistent() && (!isVocabularyBuilt ==> Words == [])
    }

    constructor ()
      ensures Valid() && !isVocabularyBuilt
      ensures vocabulary == map[] && reverseVocab == map[] && nextTokenId == 0 && Words == []
    {
      vocabulary := map[];
      reverseVocab := map[];
      nextTokenId := 0;
      isVocabularyBuilt := false;
      Words := [];
    }

    /**
     * Throws the old vocabulary away and numbers the distinct non-empty words
     * of `words` 0, 1, 2, ... in order of first occurrence.
     */
    method BuildVocabulary(words: seq<string>)
      modifies this
      ensures Valid() && isVocabularyBuilt
      ensures Words == VocabWords(words)
      ensures nextTokenId == |vocabulary| == |reverseVocab| == |Words|
      ensures forall w :: w in vocabulary <==> w in words && w != []
      ensures forall k :: 0 <= k < |words| && words[k] != [] && words[k] !in words[..k] ==>
        vocabulary[words[k]] == |VocabWords(words[..k])|
    {
      vocabulary := map[];
      reverseVocab := map[];
      nextTokenId := 0;
      Words := [];

      var uniqueWords := Dedup(words);
      for i := 0 to |uniqueWords|
        invariant Consistent()
        invariant Words == NonEmpty(uniqueWords[..i])
      {
        var word := uniqueWords[i];
        BuildStep(vocabulary, reverseVocab, Words, uniqueWords, i);
        if word != [] {
          vocabulary := vocabulary[word := nextTokenId];
          reverseVocab := reverseVocab[nextTokenId := word];
          nextTokenId := nextTokenId + 1;
          Words := Words + [word];
        }
      }
      assert uniqueWords[..|uniqueWords|] == uniqueWords;

      isVocabularyBuilt := true;
      BuiltVocabulary(vocabulary, reverseVocab, Words, words);
    }

    /**
     * `encode`: clean, tokenize, rebuild the vocabulary from this text's words,
     * and map every word to its id. The normalisation is the parameter `nfkc`.
     */
    method Encode(nfkc: string -> string, text: string) returns (r: EncodeResult)
      modifies this
      ensures Valid() && isVocabularyBuilt
      ensures r.originalText == text
      ensures r.cleanedText == CleanText(nfkc, text)
      ensures r.words == Tokenize(r.cleanedText)
      ensures Words == VocabWords(r.words)
      ensures forall w :: w in vocabulary <==> w in r.words
      ensures r.vocabularySize == |vocabulary| == nextTokenId
      ensures r.tokenCount == |r.tokenIds| == |r.words|
      ensures forall i :: 0 <= i < |r.words| ==>
        r.words[i] in vocabulary && r.tokenIds[i] == vocabulary[r.words[i]]
      ensures forall i :: 0 <= i < |r.tokenIds| ==> 0 <= r.tokenIds[i] < r.vocabularySize
      ensures forall i, j :: 0 <= i < |r.words| && 0 <= j < |r.words| ==>
        (r.words[i] == r.words[j] <==> r.tokenIds[i] == r.tokenIds[j])
      ensures forall k :: k in reverseVocab ==> IsWord(reverseVocab[k])
      ensures Decode(r.tokenIds) == Success(Join(r.words, " "))
      ensures Decode(r.tokenIds) == Success(r.cleanedText)
    {
      var cleanedText := CleanText(nfkc, text);
      var words := Tokenize(cleanedText);
      BuildVocabulary(words);
      var tokenIds := IdsOf(vocabulary, words);
      r := EncodeResult(tokenIds, words, text, cleanedText, |vocabulary|, |tokenIds|);

      TokenIds(vocabulary, reverseVocab, Words, words, tokenIds);
      JoinTokenize(cleanedText);
    }

    /**
     * `decode`: fails unless a vocabulary is built; otherwise each id's word
     * (or the placeholder), joined with single spaces. Reads the state only.
     */
    function Decode(tokenIds: seq<int>): (r: Result<string>)
      reads this
      ensures r.Success? <==> isVocabularyBuilt
      ensures r.Success? ==> r.value == Join(LookupAll(reverseVocab, tokenIds), " ")
    {
      if !isVocabularyBuilt then Failure(VocabularyNotBuilt)
      else Success(Join(LookupAll(reverseVocab, tokenIds), " "))
    }

    /** Splitting the decoded text on whitespace gives back one token per id, in order. */
    lemma DecodeOneTokenPerId(tokenIds: seq<int>)
      requires isVocabularyBuilt
      requires forall k :: k in reverseVocab ==> IsWord(reverseVocab[k])
      ensures Decode(tokenIds).Success?
      ensures Tokenize(Decode(tokenIds).value) == LookupAll(reverseVocab, tokenIds)
      ensures |Tokenize(Decode(tokenIds).value)| == |tokenIds|
    {
      var words := LookupAll(reverseVocab, tokenIds);
      UnknownIsWord();
      forall i | 0 <= i < |words| ensures IsWord(words[i]) {
        var k := tokenIds[i];
        if k in reverseVocab {
          assert words[i] == reverseVocab[k];
        } else {
          assert words[i] == Unknown;
        }
      }
      TokenizeJoin(words);
    }

    /** In a valid tokenizer the two maps are exact inverses over the ids 0 .. nextTokenId - 1. */
    lemma InverseMaps()
      requires Valid()
      ensures forall w :: w in vocabulary ==> vocabulary[w] in reverseVocab && reverseVocab[vocabulary[w]] == w
      ensures forall k :: k in reverseVocab ==> reverseVocab[k] in vocabulary && vocabulary[reverseVocab[k]] == k
      ensures forall k :: k in reverseVocab <==> 0 <= k < nextTokenId
      ensures forall k :: k in vocabulary.Values <==> 0 <= k < nextTokenId
    {
      forall k | 0 <= k < nextTokenId ensures k in vocabulary.Values {
        assert vocabulary[Words[k]] == k;
      }
    }

    /**
     * `showVocabulary`: nothing when no vocabulary is built, otherwise every
     * entry of the vocabulary once, in ascending id order, and the count.
     */
    function ShowVocabulary(): (r: Option<Listing>)
      reads this
      requires Valid()
      ensures r.None? <==> !isVocabularyBuilt
      ensures r.Some? ==> r.value.size == |vocabulary| == |r.value.entries|
      ensures r.Some? ==> forall i, j :: 0 <= i < j < |r.value.entries| ==>
        r.value.entries[i].1 < r.value.entries[j].1
      ensures r.Some? ==> forall i :: 0 <= i < |r.value.entries| ==>
        r.value.entries[i].0 in vocabulary && vocabulary[r.value.entries[i].0] == r.value.entries[i].1
      ensures r.Some? ==> forall w :: w in vocabulary ==>
        0 <= vocabulary[w] < |r.value.entries| && r.value.entries[vocabulary[w]] == (w, vocabulary[w])
    {
      if !isVocabularyBuilt then None
      else Some(Listing(EntriesById(reverseVocab, nextTokenId), |vocabulary|))
    }

    /** `clearVocab`: back to the state of a fresh tokenizer. */
    method ClearVocab()
      modifies this
      ensures Valid() && !isVocabularyBuilt
      ensures vocabulary == map[] && reverseVocab == map[] && nextTokenId == 0 && Words == []
    {
      vocabulary := map[];
      reverseVocab := map[];
      nextTokenId := 0;
      isVocabularyBuilt := false;
      Words := [];
    }
  }

  /** `clearVocab()` followed by `decode(...)` fails, whatever the ids. */
  method ClearThenDecode(t: Tokenizer, tokenIds: seq<int>) returns (r: Result<string>)
    modifies t
    ensures r == Failure(VocabularyNotBuilt)
  {
    t.ClearVocab();
    r := t.Decode(tokenIds);
  }

  /**
   * Encoding distinct words joined by single spaces numbers them 0, 1, 2, ...
   * in order, and decoding those ids gives the text back.
   */
  method EncodeDistinctWords(t: Tokenizer, nfkc: string -> string, ws: seq<string>)
    returns (r: EncodeResult)
    requires forall i :: 0 <= i < |ws| ==> IsWord(ws[i])
    requires Distinct(ws)
    requires nfkc(Join(ws, " ")) == Join(ws, " ")
    modifies t
    ensures r.originalText == r.cleanedText == Join(ws, " ")
    ensures r.words == ws
    ensures r.vocabularySize == |ws|
    ensures |r.tokenIds| == |ws| && forall i :: 0 <= i < |ws| ==> r.tokenIds[i] == i
    ensures forall i :: 0 <= i < |ws| ==> i in t.reverseVocab && t.reverseVocab[i] == ws[i]
    ensures forall k :: k in t.reverseVocab ==> 0 <= k < |ws|
    ensures t.Decode(r.tokenIds) == Success(Join(ws, " "))
  {
    var text := Join(ws, " ");
    assert CleanText(nfkc, text) == text by {
      JoinWordsClean(ws);
      CleanFixed(text);
    }
    assert Tokenize(text) == ws by {
      TokenizeJoin(ws);
    }
    assert VocabWords(ws) == ws by {
      VocabWordsOfDistinct(ws);
    }
    r := t.Encode(nfkc, text);
    forall i | 0 <= i < |r.tokenIds| ensures r.tokenIds[i] == i {
      assert t.Words[i] == ws[i];
    }
  }
}
