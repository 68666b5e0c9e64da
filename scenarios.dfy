/**
 * Worked examples: a five-word greeting, an id outside the vocabulary, and
 * the empty text, all under the whitespace-split tokenizer. Each uses the
 * identity as normalisation, which NFKC is on these ASCII texts.
 */
module Scenarios {
  import opened Text
  import opened Vocabulary
  import opened CustomEmbedding

  /** A non-empty string of visible ASCII characters is a token. */
  lemma PrintableWord(w: string)
    requires w != [] && forall i :: 0 <= i < |w| ==> '!' <= w[i] <= '~'
    ensures IsWord(w)
  {
  }

  /** The words of "Hello world! How are you?": the whitespace split keeps punctuation attached to its word. */
  const Greeting: seq<string> := ["Hello", "world!", "How", "are", "you?"]

  lemma GreetingTokens()
    ensures forall i :: 0 <= i < |Greeting| ==> IsWord(Greeting[i])
  {
    assert IsWord("Hello") by { PrintableWord("Hello"); }
    assert IsWord("world!") by { PrintableWord("world!"); }
    assert IsWord("How") by { PrintableWord("How"); }
    assert IsWord("are") by { PrintableWord("are"); }
    assert IsWord("you?") by { PrintableWord("you?"); }
  }

  lemma GreetingDistinct()
    ensures Distinct(Greeting)
  {
  }

  lemma GreetingJoin()
    ensures Join(Greeting, " ") == "Hello world! How are you?"
  {
  }

  /** `encode("Hello world! How are you?")` gives the ids 0..4, which decode to the text. */
  method HelloWorld() returns (r: EncodeResult, decoded: Result<string>)
    ensures r.originalText == "Hello world! How are you?"
    ensures r.tokenIds == [0, 1, 2, 3, 4]
    ensures decoded == Success("Hello world! How are you?")
  {
    var t := new Tokenizer();
    GreetingTokens();
    GreetingDistinct();
    GreetingJoin();
    r := EncodeDistinctWords(t, s => s, Greeting);
    decoded := t.Decode(r.tokenIds);
  }

  /** The words of a two-word text. */
  const Pair: seq<string> := ["Hello", "world"]

  lemma PairWords()
    ensures forall i :: 0 <= i < |Pair| ==> IsWord(Pair[i])
    ensures Distinct(Pair)
    ensures Join(Pair, " ") == "Hello world"
    ensures Join(Pair + [Unknown], " ") == "Hello world <UNK>"
  {
    assert IsWord("Hello") && IsWord("world");
    assert Pair + [Unknown] == ["Hello", "world", "<UNK>"];
    assert Join(["Hello", "world", "<UNK>"], " ") == "Hello world <UNK>";
  }

  /** After `encode("Hello world")`, `decode([0, 1, 99])` resolves two ids and puts the placeholder for 99. */
  method UnknownId() returns (r: EncodeResult, ids: seq<int>, decoded: Result<string>)
    ensures r.originalText == "Hello world"
    ensures ids == [0, 1, 99]
    ensures decoded == Success("Hello world <UNK>")
  {
    var t := new Tokenizer();
    PairWords();
    r := EncodeDistinctWords(t, s => s, Pair);
    ids := [0, 1, 99];
    decoded := t.Decode(ids);
    assert LookupAll(t.reverseVocab, ids) == Pair + [Unknown] by {
      assert 99 !in t.reverseVocab;
    }
  }

  /** `encode("")` gives no words, no ids and an empty vocabulary, yet marks the vocabulary built. */
  method EmptyText() returns (r: EncodeResult, built: bool)
    ensures r.words == [] && r.tokenIds == [] && r.vocabularySize == 0 && built
  {
    var t := new Tokenizer();
    assert Tokenize(CleanText(s => s, "")) == [] by {
      TokenizeEmpty();
    }
    r := t.Encode(s => s, "");
    built := t.isVocabularyBuilt;
    assert VocabWords([]) == [];
  }
}
