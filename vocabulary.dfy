/**
 * What `buildVocabulary(words)` produces, as a specification on values: the
 * vocabulary in id order is the list of distinct non-empty words of `words`
 * in order of first occurrence, so the word at position i gets id i.
 */
module Vocabulary {
  import opened Text

  predicate Distinct<T(==)>(s: seq<T>) {
    forall i, j :: 0 <= i < j < |s| ==> s[i] != s[j]
  }

  /** `[...new Set(s)]`: each distinct element once, at the place of its first occurrence. */
  function Dedup(s: seq<string>): (r: seq<string>)
    ensures |r| <= |s|
    ensures Distinct(r)
    ensures forall x :: x in r <==> x in s
  {
    if s == [] then []
    else
      var d := Dedup(s[..|s| - 1]);
      var x := s[|s| - 1];
      if x in d then d else d + [x]
  }

  /** One more element: `new Set` keeps it, at the end, only if it was not seen before. */
  lemma DedupSnoc(s: seq<string>, x: string)
    ensures Dedup(s + [x]) == Dedup(s) + (if x in s then [] else [x])
  {
    assert (s + [x])[..|s|] == s;
  }

  /** Deduplicating a prefix gives a prefix: the set's iteration order is insertion order. */
  lemma {:induction false} DedupPrefix(s: seq<string>, j: nat)
    requires j <= |s|
    ensures |Dedup(s[..j])| <= |Dedup(s)|
    ensures Dedup(s[..j]) == Dedup(s)[..|Dedup(s[..j])|]
    decreases |s|
  {
    if j == |s| {
      assert s[..j] == s;
    } else {
      var p, x := s[..|s| - 1], s[|s| - 1];
      assert s == p + [x];
      DedupSnoc(p, x);
      var e := if x in p then [] else [x];
      assert (Dedup(p) + e)[..|Dedup(p)|] == Dedup(p);
      assert p[..j] == s[..j];
      DedupPrefix(p, j);
      PrefixTrans(Dedup(s[..j]), Dedup(p), Dedup(s));
    }
  }

  /** The first occurrence of an element takes the place after the distinct elements before it. */
  lemma DedupFirstOccurrence(s: seq<string>, k: nat)
    requires k < |s| && s[k] !in s[..k]
    ensures |Dedup(s[..k])| < |Dedup(s)|
    ensures Dedup(s)[|Dedup(s[..k])|] == s[k]
  {
    assert s[..k + 1] == s[..k] + [s[k]];
    DedupSnoc(s[..k], s[k]);
    DedupPrefix(s, k + 1);
  }

  lemma {:induction false} NonEmptyDistinct(s: seq<string>)
    requires Distinct(s)
    ensures Distinct(NonEmpty(s))
    decreases |s|
  {
    if s != [] {
      var p := s[..|s| - 1];
      NonEmptyDistinct(p);
      assert s[|s| - 1] !in p by {
        forall i | 0 <= i < |p| ensures p[i] != s[|s| - 1] {
          assert p[i] == s[i];
        }
      }
    }
  }

  /** The vocabulary that `buildVocabulary(words)` builds, listed in id order. */
  function VocabWords(words: seq<string>): (r: seq<string>)
    ensures |r| <= |words|
  {
    NonEmpty(Dedup(words))
  }

  /** The vocabulary holds each distinct non-empty word once, and nothing else. */
  lemma VocabWordsSpec(words: seq<string>)
    ensures Distinct(VocabWords(words))
    ensures forall w :: w in VocabWords(words) <==> w in words && w != []
  {
    NonEmptyDistinct(Dedup(words));
  }

  lemma VocabWordsSnoc(s: seq<string>, x: string)
    ensures VocabWords(s + [x]) == VocabWords(s) + (if x == [] || x in s then [] else [x])
  {
    assert (s + [x])[..|s|] == s;
    var d := Dedup(s);
    if x !in d {
      assert (d + [x])[..|d|] == d;
    }
  }

  lemma PrefixTrans(a: seq<string>, b: seq<string>, c: seq<string>)
    requires |a| <= |b| <= |c| && a == b[..|a|] && b == c[..|b|]
    ensures a == c[..|a|]
  {
  }

  /** Dropping the last word leaves a prefix of the vocabulary. */
  lemma VocabWordsDropLast(s: seq<string>)
    requires s != []
    ensures |VocabWords(s[..|s| - 1])| <= |VocabWords(s)|
    ensures VocabWords(s[..|s| - 1]) == VocabWords(s)[..|VocabWords(s[..|s| - 1])|]
  {
    var p, x := s[..|s| - 1], s[|s| - 1];
    assert s == p + [x];
    VocabWordsSnoc(p, x);
    var e := if x == [] || x in p then [] else [x];
    assert (VocabWords(p) + e)[..|VocabWords(p)|] == VocabWords(p);
  }

  /** The vocabulary of a prefix of the words is a prefix of the vocabulary of all of them. */
  lemma {:induction false} VocabWordsPrefix(s: seq<string>, j: nat)
    requires j <= |s|
    ensures |VocabWords(s[..j])| <= |VocabWords(s)|
    ensures VocabWords(s[..j]) == VocabWords(s)[..|VocabWords(s[..j])|]
    decreases |s|
  {
    if j == |s| {
      assert s[..j] == s;
    } else {
      var p := s[..|s| - 1];
      VocabWordsDropLast(s);
      assert p[..j] == s[..j];
      VocabWordsPrefix(p, j);
      PrefixTrans(VocabWords(s[..j]), VocabWords(p), VocabWords(s));
    }
  }

  /**
   * Ids in first-occurrence order: the first occurrence of a non-empty word
   * gets as id the number of distinct non-empty words seen before it.
   */
  lemma FirstOccurrenceId(words: seq<string>, k: nat)
    requires k < |words| && words[k] != [] && words[k] !in words[..k]
    ensures |VocabWords(words[..k])| < |VocabWords(words)|
    ensures VocabWords(words)[|VocabWords(words[..k])|] == words[k]
  {
    assert words[..k + 1] == words[..k] + [words[k]];
    VocabWordsSnoc(words[..k], words[k]);
    VocabWordsPrefix(words, k + 1);
  }

  /** Words that are all distinct and non-empty get the ids 0, 1, 2, ... in order. */
  lemma {:induction false} VocabWordsOfDistinct(words: seq<string>)
    requires Distinct(words)
    requires forall i :: 0 <= i < |words| ==> words[i] != []
    ensures VocabWords(words) == words
    decreases |words|
  {
    if words != [] {
      var p := words[..|words| - 1];
      var x := words[|words| - 1];
      assert words == p + [x];
      assert x !in p by {
        forall i | 0 <= i < |p| ensures p[i] != x {
          assert p[i] == words[i];
        }
      }
      VocabWordsSnoc(p, x);
      VocabWordsOfDistinct(p);
    }
  }
}
