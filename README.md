# Custom embedding tokenizer — a Dafny model

This project models the `Tokenizer` class of `custom_embedding.js`. It is a
word-level tokenizer. Its two maps are `vocabulary` (word to id) and
`reverseVocab` (id to word). It also keeps a `nextTokenId` counter and an
`isVocabularyBuilt` flag. Every `encode(text)` call runs four steps:

1. It cleans the text: NFKC normalisation, then every whitespace run becomes
   one space, then the ends are trimmed.
2. It splits the cleaned text into words. The model takes the whitespace-split
   fallback of custom_embedding.js:28, which the source uses when
   `Intl.Segmenter` is not available.
3. It rebuilds the vocabulary from scratch, using this text's words only.
4. It maps each word to its id.

`decode(ids)` looks each id up in `reverseVocab`. An id with no word becomes
`"<UNK>"`. The words are then joined with single spaces. Decoding fails while
no vocabulary is built. `showVocabulary` lists the entries in id order, and
`clearVocab` resets the tokenizer.

The model has three modules plus a module of worked examples:

- `Text` (`text.dfy`) covers whitespace, cleaning and tokenizing, all as pure
  functions. `IsSpace` is the character set of the JavaScript `\s` class, which
  is also the set `String.prototype.trim` strips. `SplitWs` is
  `split(/\s+/)`, exact in its empty leading and trailing pieces. `Tokenize`
  is that split with the empty pieces filtered out.
- `Vocabulary` (`vocabulary.dfy`) defines `VocabWords(words)`. This is the
  vocabulary that `buildVocabulary(words)` builds, listed in id order: the
  distinct (`[...new Set(words)]`), non-empty words in first-occurrence order.
- `CustomEmbedding` (`tokenizer.dfy`) holds the `Tokenizer` class:
  - the map fields, the counter and the flag, as in the source;
  - a ghost field `Words`, the vocabulary in id order;
  - the object invariant `Valid()`: the two maps are inverse bijections
    between `Words` and the ids `0 .. nextTokenId - 1`, and there are no words
    unless a vocabulary is built.

  `buildVocabulary`, `encode` and `clearVocab` are methods that change the
  object. `decode` and `showVocabulary` only read state, so they are functions
  with `reads this`.
- `Scenarios` (`scenarios.dfy`) works through three examples, all with the
  whitespace-split tokenizer:
  - encoding and decoding a five-word greeting;
  - an id that is not in the vocabulary;
  - the empty text.

NFKC normalisation is the parameter `nfkc: string -> string` of `CleanText`
and `Encode`, and nothing is assumed about it. The error thrown by `decode` is
the value `Failure(VocabularyNotBuilt)` of a `Result` datatype.

## Model

| member | source | states |
|---|---|---|
| Text.Collapse | custom_embedding.js:15 | `replace(/\s+/g, ' ')`: the result is empty exactly when the input is. It starts with whitespace exactly when the input does. Every whitespace character in it is a space, and no two whitespace characters are adjacent. |
| Text.TrimStart | custom_embedding.js:16 | The result is a suffix of the input that does not start with whitespace. Everything removed is whitespace. |
| Text.TrimEnd | custom_embedding.js:16 | The result is a prefix of the input that does not end with whitespace. Everything removed is whitespace. |
| Text.Trim | custom_embedding.js:16 | `trim()` never leaves whitespace at either end. |
| Text.TrimSpec | custom_embedding.js:16 | `trim()` removes whitespace at the two ends and nothing else. The result is the slice of the input starting at some `lo`. Everything before `lo` and everything after the slice is whitespace. |
| Text.TrimClean | custom_embedding.js:16 | Trimming a string in which whitespace is single spaces leaves a clean string. |
| Text.CleanText | custom_embedding.js:9-17 | `cleanText` output never starts or ends with whitespace. Its only whitespace character is the space, and no two spaces are adjacent. |
| Text.SplitWs | custom_embedding.js:28 | `split(/\s+/)` gives at least one piece, and no piece contains whitespace. The first piece is empty exactly when the text is empty or starts with whitespace. |
| Text.NonEmpty | custom_embedding.js:28 | The `filter(token => token.length > 0)` keeps exactly the non-empty pieces and never grows the list. |
| Text.Tokenize | custom_embedding.js:19-30 | Every token of the whitespace fallback is non-empty and contains no whitespace. |
| Text.TokenizeCons | custom_embedding.js:28 | Describes the tokens of `c + s`. If `c` is whitespace, they are the tokens of `s`. If `s` starts with a non-whitespace character, `c` is prepended to the first token of `s`. Otherwise `[c]` becomes a new first token. |
| Text.TokenizeCleanText | custom_embedding.js:13-28 | Collapsing and trimming whitespace does not change the tokens. `tokenize(cleanText(t))` equals the tokens of the normalised `t`. |
| Text.CleanTextJoin | custom_embedding.js:13-28 | `cleanText(t)` equals the whitespace-split tokens of the normalised `t` joined by single spaces, so cleaning only collapses runs and trims. |
| Text.CleanTextIdempotent | custom_embedding.js:13-16 | Cleaning an already cleaned text leaves it unchanged, provided the normalisation fixes the cleaned text. |
| Text.CleanFixed | custom_embedding.js:15-16 | On a text that is already clean, the whitespace collapse and the trim are both the identity. |
| Text.JoinTokenize | custom_embedding.js:28 | Joining the tokens of a clean text with single spaces rebuilds the text exactly. |
| Text.TokenizeJoin | custom_embedding.js:28 | Tokenizing words joined by single spaces gives back the words, provided each word is non-empty and has no whitespace. |
| Text.Join | custom_embedding.js:91 | `join(sep)`: no parts give "", one part gives that part, and otherwise the parts come with `sep` between them. `JoinEnds`, `JoinConcat`, `TokenizeJoin` and `JoinTokenize` pin it down. |
| Text.JoinEnds | custom_embedding.js:91 | A join of at least one part starts with its first part and ends with its last part. |
| Text.JoinConcat | custom_embedding.js:91 | `join(sep)` of two non-empty lists put together is the join of each with one separator between them. |
| Text.JoinConsChar | custom_embedding.js:91 | A character put in front of the first part of a `join` comes out in front of the joined string. |
| Text.JoinWordsClean | custom_embedding.js:13-16 | Words joined by single spaces form a clean text, and that text is non-empty when there is at least one word. |
| Vocabulary.Dedup | custom_embedding.js:37 | `[...new Set(words)]` has no repeated element. Every element it holds comes from the input, and every input element appears in it. |
| Vocabulary.DedupSnoc | custom_embedding.js:37 | Adding one more element to the input of `new Set` adds it at the end of the iteration order if it is new, and changes nothing otherwise. |
| Vocabulary.DedupPrefix | custom_embedding.js:37 | Deduplicating a prefix of the input gives a prefix of the deduplicated input, because `new Set` iterates in insertion order. |
| Vocabulary.DedupFirstOccurrence | custom_embedding.js:37 | The first occurrence of an element takes the position right after the distinct elements that come before it. |
| Vocabulary.VocabWords | custom_embedding.js:37-46 | The reference definition of what `buildVocabulary(words)` builds, in id order: the distinct words of `[...new Set(words)]` with the empty ones dropped. It is never longer than the input. `VocabWordsSpec`, `VocabWordsPrefix` and `FirstOccurrenceId` give its meaning, and `BuildVocabulary` and `Encode` are stated through it. |
| Vocabulary.VocabWordsSpec | custom_embedding.js:37-46 | The vocabulary has no duplicates. It holds exactly the non-empty words of the input. |
| Vocabulary.VocabWordsPrefix | custom_embedding.js:40-46 | The vocabulary built from a prefix of the words is a prefix of the vocabulary built from all of them, so ids handed out earlier never move. |
| Vocabulary.FirstOccurrenceId | custom_embedding.js:37-46 | At the first occurrence of a non-empty word, the position it takes in the vocabulary is the number of distinct non-empty words seen before it. |
| Vocabulary.VocabWordsOfDistinct | custom_embedding.js:37-46 | Distinct non-empty words get the ids 0, 1, 2, ... in their own order. |
| CustomEmbedding.LookupAll | custom_embedding.js:83-90 | One word per id, at the same position. The word is the id's entry in `reverseVocab`, or `"<UNK>"` when the id has no entry. |
| CustomEmbedding.IdsOf | custom_embedding.js:56-63 | One id per word, at the same position: the word's id in the vocabulary, or -1 when the word is missing. |
| CustomEmbedding.EntriesById | custom_embedding.js:103 | The ids `0 .. n - 1` paired with their words, in ascending id order. |
| CustomEmbedding.BijectionAdd | custom_embedding.js:41-44 | One `forEach` step, which gives a new non-empty word the next id, keeps the two maps inverse bijections over the ids `0 .. nextTokenId - 1`. |
| CustomEmbedding.BuildStep | custom_embedding.js:40-46 | Each turn of the loop over the distinct words works the same way. A non-empty word is not yet numbered, and numbering it next extends the vocabulary in id order while keeping the bijection. An empty word changes nothing. |
| CustomEmbedding.BuiltVocabulary | custom_embedding.js:33-46 | After the loop, the vocabulary holds exactly the non-empty input words. Each word's id counts the distinct non-empty words before its first occurrence. |
| CustomEmbedding.LookupInverse | custom_embedding.js:56-63 | Mapping words to ids through `vocabulary` and back through `reverseVocab` returns the same words. |
| CustomEmbedding.EncodedIds | custom_embedding.js:56-63 | Every id `encode` produces lies in `[0, vocabulary size)`, so the `-1` branch cannot be reached. Two positions hold equal words exactly when they hold equal ids. Looking the ids up gives the words back. |
| CustomEmbedding.TokenIds | custom_embedding.js:56-63 | Over a vocabulary built from the words themselves, no word misses. Each position holds its word's vocabulary id, every id is in range, and equal words get equal ids and the reverse. Looking the ids up returns the words, and every vocabulary word is a token. |
| CustomEmbedding.VocabOfTokens | custom_embedding.js:41-43 | When the vocabulary is built from tokens, every word in `reverseVocab` is a token: non-empty and with no whitespace. |
| CustomEmbedding.Tokenizer.constructor | custom_embedding.js:2-7 | A new tokenizer has both maps empty, `nextTokenId == 0`, the flag false, and the invariant holds. |
| CustomEmbedding.Tokenizer.BuildVocabulary | custom_embedding.js:32-50 | Afterwards the flag is set and the maps are inverse bijections. The vocabulary holds exactly the non-empty words of the input, so nothing of the old vocabulary survives. `nextTokenId` equals the size of both maps. At a word's first occurrence, its id is the number of distinct non-empty words before it. |
| CustomEmbedding.Tokenizer.Encode | custom_embedding.js:52-72 | The result's fields are the original text, its cleaned text, and that text's tokens. The vocabulary is rebuilt from those tokens. `vocabularySize` and `tokenCount` are set, and position i holds `vocabulary[words[i]]`. Every id is in range. Equal words get equal ids, and equal ids mean equal words. Decoding the ids right away gives `Join(words, " ")`. With the whitespace-split tokenizer, that equals the cleaned text. |
| CustomEmbedding.Tokenizer.Decode | custom_embedding.js:74-95 | Decoding fails exactly when no vocabulary is built. Otherwise it returns the looked-up words joined by single spaces. It is a function, so it changes no state. |
| CustomEmbedding.Tokenizer.DecodeOneTokenPerId | custom_embedding.js:83-91 | After an `encode`, splitting the decoded text on whitespace gives one token per id, in order: the id's word or `"<UNK>"`. |
| CustomEmbedding.Tokenizer.InverseMaps | custom_embedding.js:40-46 | In a valid tokenizer each map inverts the other. The keys of `reverseVocab` and the values of `vocabulary` are exactly `0 .. nextTokenId - 1`. |
| CustomEmbedding.Tokenizer.ShowVocabulary | custom_embedding.js:97-108 | Returns nothing when no vocabulary is built. Otherwise it lists every vocabulary entry exactly once, at the index equal to its id, in strictly increasing id order, together with the vocabulary size. |
| CustomEmbedding.Tokenizer.ClearVocab | custom_embedding.js:110-116 | Both maps become empty, `nextTokenId` becomes 0 and the flag becomes false. |
| CustomEmbedding.ClearThenDecode | custom_embedding.js:74-116 | `clearVocab()` followed by `decode(ids)` fails with the "not built" error, whatever the ids. |
| CustomEmbedding.EncodeDistinctWords | custom_embedding.js:52-95 | Encoding distinct words joined by single spaces leaves that text unchanged by cleaning. It gives the ids `0 .. n - 1` in order, a vocabulary of size n mapping id i to the i-th word, and a decode that returns the text. |
| Scenarios.HelloWorld | custom_embedding.js:52-95 | The result is that of encoding `"Hello world! How are you?"`. It holds the ids `[0, 1, 2, 3, 4]`, and decoding them returns the same sentence. |
| Scenarios.UnknownId | custom_embedding.js:83-91 | The result is that of encoding `"Hello world"`. Decoding the ids `[0, 1, 99]` afterwards returns `"Hello world <UNK>"`. |
| Scenarios.EmptyText | custom_embedding.js:52-72 | `encode("")` gives no words, no ids and vocabulary size 0. The vocabulary still counts as built. |

## Left out

- The `Intl.Segmenter` branch of `tokenize` (custom_embedding.js:20-25) is not modelled. It is a locale-dependent implementation of Unicode word boundaries (Unicode Standard Annex #29). Only the whitespace-split fallback is modelled. Every result about the tokens holds for the fallback only. In particular, these hold for it only: the round trip that gives `decode(encode(t).tokenIds)` back as the cleaned text; `Encode`'s promise that every vocabulary word is a whitespace-free token; `DecodeOneTokenPerId`; `EncodeDistinctWords`, with its ids `0 .. n - 1` and its decode back to the text; and the ids of the greeting scenario. The word segmenter makes punctuation its own segment. With it, the greeting would give seven words and decode to "Hello world ! How are you ?".
- NFKC normalisation (Unicode Standard Annex #15) is a function parameter with no properties. The scenarios use the identity, which is what NFKC does on their ASCII text.
- `console.log` and `console.warn` output is not modelled, since it is I/O. `showVocabulary` returns its listing instead of printing it.
- The `typeof text !== 'string'` and `Array.isArray` checks are not modelled. These throw paths cannot be reached with Dafny's types.
- Ids that are not integers are not modelled. In JavaScript such an id would miss the map and decode to `"<UNK>"`. `decode` takes a `seq<int>`.
- `cli.js` is not part of this model. It is a readline loop, console formatting and command parsing. Its help text says the input is lowercased and punctuation removed, but the code keeps both, and the model follows the code.
- CustomEmbedding.Tokenizer.ShowVocabulary: builds the listing by walking `reverseVocab` through ids `0 .. nextTokenId - 1`, not by sorting the entries of `vocabulary`. Its contract states the sorted result that the sort produces.
- CustomEmbedding.Tokenizer.Encode: does not model the JavaScript number range of `nextTokenId`, which the model takes as an unbounded integer.
- The error for a non-string or non-array input is not modelled. With the parameter types, `VocabularyNotBuilt` is the only error left.
- JavaScript strings are sequences of UTF-16 code units, and the model uses Dafny `char`. The whitespace set is stated as the code points of the `\s` class.
