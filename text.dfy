/**
 * The pure text side of the tokenizer: `cleanText` (collapse whitespace runs,
 * trim) and the whitespace fallback of `tokenize` (split on whitespace runs,
 * drop empty pieces), together with `join(' ')`, which `decode` uses.
 */
module Text {

  /** The characters JavaScript's `\s` matches; `String.prototype.trim` strips the same set. */
  predicate IsSpace(c: char) {
    var n := c as int;
    || n == 0x09 || n == 0x0A || n == 0x0B || n == 0x0C || n == 0x0D || n == 0x20
    || n == 0xA0 || n == 0x1680 || (0x2000 <= n <= 0x200A) || n == 0x2028 || n == 0x2029
    || n == 0x202F || n == 0x205F || n == 0x3000 || n == 0xFEFF
  }

  predicate NoSpace(w: string) {
    forall i :: 0 <= i < |w| ==> !IsSpace(w[i])
  }

  /** What a token of the fallback tokenizer is: non-empty, without whitespace. */
  predicate IsWord(w: string) {
    w != [] && NoSpace(w)
  }

  /** Every whitespace character is a plain space, and no two of them are adjacent. */
  predicate SingleSpaced(s: string) {
    && (forall i :: 0 <= i < |s| && IsSpace(s[i]) ==> s[i] == ' ')
    && (forall i :: 0 <= i < |s| - 1 && IsSpace(s[i]) ==> !IsSpace(s[i + 1]))
  }

  predicate Trimmed(s: string) {
    s != [] ==> !IsSpace(s[0]) && !IsSpace(s[|s| - 1])
  }

  /** The shape of every string `cleanText` returns. */
  predicate Clean(s: string) {
    SingleSpaced(s) && Trimmed(s)
  }

  /** `replace(/\s+/g, ' ')`: every maximal run of whitespace becomes one space. */
  function Collapse(s: string): (r: string)
    ensures |r| == 0 <==> |s| == 0
    ensures r != [] ==> (IsSpace(r[0]) <==> IsSpace(s[0]))
    ensures SingleSpaced(r)
    decreases |s|
  {
    if s == [] then []
    else if !IsSpace(s[0]) then [s[0]] + Collapse(s[1..])
    else if |s| > 1 && IsSpace(s[1]) then Collapse(s[1..])
    else [' '] + Collapse(s[1..])
  }

  /** The leading half of `trim()`: drops the whitespace at the front, and only that. */
  function TrimStart(s: string): (r: string)
    ensures |r| <= |s| && r == s[|s| - |r|..]
    ensures r != [] ==> !IsSpace(r[0])
    ensures forall i :: 0 <= i < |s| - |r| ==> IsSpace(s[i])
    decreases |s|
  {
    if s != [] && IsSpace(s[0]) then TrimStart(s[1..]) else s
  }

  /** The trailing half of `trim()`: drops the whitespace at the end, and only that. */
  function TrimEnd(s: string): (r: string)
    ensures |r| <= |s| && r == s[..|r|]
    ensures r != [] ==> !IsSpace(r[|r| - 1])
    ensures forall i :: |r| <= i < |s| ==> IsSpace(s[i])
    decreases |s|
  {
    if s != [] && IsSpace(s[|s| - 1]) then TrimEnd(s[..|s| - 1]) else s
  }

  /** `trim()`: drops the whitespace at both ends. */
  function Trim(s: string): (r: string)
    ensures Trimmed(r)
  {
    var front := TrimStart(s);
    var both := TrimEnd(front);
    PrefixTrimmed(front, both);
    both
  }

  lemma PrefixTrimmed(front: string, both: string)
    requires |both| <= |front| && both == front[..|both|]
    requires front != [] ==> !IsSpace(front[0])
    requires both != [] ==> !IsSpace(both[|both| - 1])
    ensures Trimmed(both)
  {
    if both != [] {
      assert both[0] == front[0];
    }
  }

  /**
   * `trim()` removes whitespace at the two ends and nothing else: the result
   * is the slice of the input between a run of whitespace at the front and
   * one at the back.
   */
  lemma TrimSpec(s: string) returns (lo: nat)
    ensures lo + |Trim(s)| <= |s|
    ensures Trim(s) == s[lo..lo + |Trim(s)|]
    ensures forall i :: 0 <= i < lo ==> IsSpace(s[i])
    ensures forall i :: lo + |Trim(s)| <= i < |s| ==> IsSpace(s[i])
  {
    var front := TrimStart(s);
    lo := |s| - |front|;
    var r := TrimEnd(front);
    assert Trim(s) == r;
    SliceOfSuffix(s, lo, front, r);
  }

  lemma SliceOfSuffix(s: string, lo: nat, front: string, r: string)
    requires lo <= |s| && front == s[lo..] && |r| <= |front| && r == front[..|r|]
    requires forall i :: |r| <= i < |front| ==> IsSpace(front[i])
    ensures lo + |r| <= |s| && r == s[lo..lo + |r|]
    ensures forall i :: lo + |r| <= i < |s| ==> IsSpace(s[i])
  {
    forall i | lo + |r| <= i < |s| ensures IsSpace(s[i]) {
      assert s[i] == front[i - lo];
    }
  }

  /**
   * `cleanText`: normalise, collapse whitespace runs to one space, trim.
   * The Unicode normalisation (NFKC) is the parameter `nfkc`.
   */
  function CleanText(nfkc: string -> string, text: string): (r: string)
    ensures Clean(r)
  {
    var collapsed := Collapse(nfkc(text));
    TrimClean(collapsed);
    Trim(collapsed)
  }

  /** Trimming a single-spaced string leaves a clean one. */
  lemma TrimClean(s: string)
    requires SingleSpaced(s)
    ensures Clean(Trim(s))
  {
    var front := TrimStart(s);
    var both := TrimEnd(front);
    assert SingleSpaced(both) by {
      SingleSpacedSlice(s, |s| - |front|, |s|);
      SingleSpacedSlice(front, 0, |both|);
    }
    assert Trimmed(both) by {
      if both != [] {
        assert both[0] == front[0];
      }
    }
  }

  lemma SingleSpacedSlice(s: string, lo: nat, hi: nat)
    requires SingleSpaced(s) && lo <= hi <= |s|
    ensures SingleSpaced(s[lo..hi])
  {
    var t := s[lo..hi];
    forall i | 0 <= i < |t| - 1 && IsSpace(t[i])
      ensures !IsSpace(t[i + 1])
    {
      assert t[i] == s[lo + i] && t[i + 1] == s[lo + i + 1];
    }
  }

  /**
   * `split(/\s+/)`: the pieces between whitespace runs. As in JavaScript, a run
   * at the front or the back leaves an empty piece there, and "" splits into [""].
   */
  function SplitWs(s: string): (r: seq<string>)
    ensures |r| >= 1
    ensures forall i :: 0 <= i < |r| ==> NoSpace(r[i])
    ensures r[0] == [] <==> (s == [] || IsSpace(s[0]))
    decreases |s|
  {
    if s == [] then [[]]
    else
      var rest := SplitWs(s[1..]);
      if !IsSpace(s[0]) then [[s[0]] + rest[0]] + rest[1..]
      else if |s| > 1 && IsSpace(s[1]) then rest
      else [[]] + rest
  }

  /** `filter(token => token.length > 0)`. */
  function NonEmpty(s: seq<string>): (r: seq<string>)
    ensures |r| <= |s|
    ensures forall x :: x in r <==> x in s && x != []
  {
    if s == [] then []
    else NonEmpty(s[..|s| - 1]) + (if s[|s| - 1] == [] then [] else [s[|s| - 1]])
  }

  /** The whitespace fallback of `tokenize`. */
  function Tokenize(text: string): (r: seq<string>)
    ensures forall i :: 0 <= i < |r| ==> IsWord(r[i])
  {
    var pieces := SplitWs(text);
    var r := NonEmpty(pieces);
    assert forall i :: 0 <= i < |r| ==> r[i] in pieces;
    r
  }

  /** `join(sep)`. */
  function Join(parts: seq<string>, sep: string): string {
    if |parts| == 0 then []
    else if |parts| == 1 then parts[0]
    else parts[0] + sep + Join(parts[1..], sep)
  }

  lemma {:induction false} NonEmptyConcat(a: seq<string>, b: seq<string>)
    ensures NonEmpty(a + b) == NonEmpty(a) + NonEmpty(b)
    decreases |b|
  {
    if b != [] {
      var b' := b[..|b| - 1];
      assert (a + b)[..|a + b| - 1] == a + b';
      NonEmptyConcat(a, b');
    } else {
      assert a + b == a;
    }
  }

  lemma NonEmptySingle(x: string)
    ensures NonEmpty([x]) == if x == [] then [] else [x]
  {
    assert [x][..0] == [];
  }

  lemma SplitWsCons(c: char, s: string)
    ensures SplitWs([c] + s) ==
      if !IsSpace(c) then [[c] + SplitWs(s)[0]] + SplitWs(s)[1..]
      else if s != [] && IsSpace(s[0]) then SplitWs(s)
      else [[]] + SplitWs(s)
  {
    assert ([c] + s)[1..] == s;
  }

  lemma TokenizeConsSpace(c: char, s: string)
    requires IsSpace(c)
    ensures Tokenize([c] + s) == Tokenize(s)
  {
    SplitWsCons(c, s);
    if !(s != [] && IsSpace(s[0])) {
      NonEmptyConcat([[]], SplitWs(s));
      NonEmptySingle([]);
    }
  }

  lemma TokenizeConsWord(c: char, s: string)
    requires !IsSpace(c)
    ensures Tokenize([c] + s) == NonEmpty([[c] + SplitWs(s)[0]]) + NonEmpty(SplitWs(s)[1..])
    ensures Tokenize(s) == NonEmpty([SplitWs(s)[0]]) + NonEmpty(SplitWs(s)[1..])
  {
    var rest := SplitWs(s);
    SplitWsCons(c, s);
    assert rest == [rest[0]] + rest[1..];
    NonEmptyConcat([rest[0]], rest[1..]);
    NonEmptyConcat([[c] + rest[0]], rest[1..]);
  }

  lemma TokenizeConsExtend(c: char, s: string)
    requires !IsSpace(c) && s != [] && !IsSpace(s[0])
    ensures Tokenize(s) != []
    ensures Tokenize([c] + s) == [[c] + Tokenize(s)[0]] + Tokenize(s)[1..]
  {
    var rest := SplitWs(s);
    TokenizeConsWord(c, s);
    NonEmptySingle(rest[0]);
    NonEmptySingle([c] + rest[0]);
    var tail := NonEmpty(rest[1..]);
    assert Tokenize(s) == [rest[0]] + tail;
  }

  lemma TokenizeConsNew(c: char, s: string)
    requires !IsSpace(c) && (s == [] || IsSpace(s[0]))
    ensures Tokenize([c] + s) == [[c]] + Tokenize(s)
  {
    var rest := SplitWs(s);
    TokenizeConsWord(c, s);
    assert rest[0] == [];
    assert NonEmpty([rest[0]]) == [] by { NonEmptySingle(rest[0]); }
    assert [c] + rest[0] == [c];
    assert NonEmpty([[c]]) == [[c]] by { NonEmptySingle([c]); }
  }

  /** How `tokenize` sees one more character put in front of its input. */
  lemma TokenizeCons(c: char, s: string)
    ensures !IsSpace(c) ==> Tokenize([c] + s) != []
    ensures s != [] && !IsSpace(s[0]) ==> Tokenize(s) != []
    ensures Tokenize([c] + s) ==
      if IsSpace(c) then Tokenize(s)
      else if s != [] && !IsSpace(s[0]) then [[c] + Tokenize(s)[0]] + Tokenize(s)[1..]
      else [[c]] + Tokenize(s)
  {
    if s != [] && !IsSpace(s[0]) {
      var rest := SplitWs(s);
      assert rest[0] in rest;
      assert rest[0] in Tokenize(s);
    }
    if IsSpace(c) {
      TokenizeConsSpace(c, s);
    } else if s != [] && !IsSpace(s[0]) {
      TokenizeConsExtend(c, s);
    } else {
      TokenizeConsNew(c, s);
    }
  }

  /** Joining two non-empty lists is joining each and putting one separator between. */
  lemma {:induction false} JoinConcat(a: seq<string>, b: seq<string>, sep: string)
    requires a != [] && b != []
    ensures Join(a + b, sep) == Join(a, sep) + sep + Join(b, sep)
    decreases |a|
  {
    if |a| == 1 {
      assert (a + b)[1..] == b;
    } else {
      assert (a + b)[1..] == a[1..] + b;
      JoinConcat(a[1..], b, sep);
    }
  }

  /** A join starts with its first part and ends with its last one. */
  lemma {:induction false} JoinEnds(parts: seq<string>, sep: string)
    requires parts != []
    ensures |parts[0]| <= |Join(parts, sep)| && Join(parts, sep)[..|parts[0]|] == parts[0]
    ensures |parts[|parts| - 1]| <= |Join(parts, sep)|
    ensures Join(parts, sep)[|Join(parts, sep)| - |parts[|parts| - 1]|..] == parts[|parts| - 1]
    decreases |parts|
  {
    if |parts| > 1 {
      var rest := parts[1..];
      JoinEnds(rest, sep);
      var j := Join(rest, sep);
      var last := parts[|parts| - 1];
      assert last == rest[|rest| - 1];
      assert Join(parts, sep) == (parts[0] + sep) + j;
      assert j[|j| - |last|..] == last;
    }
  }

  lemma JoinConsChar(c: char, x: string, y: seq<string>, sep: string)
    ensures Join([[c] + x] + y, sep) == [c] + Join([x] + y, sep)
  {
    assert ([[c] + x] + y)[1..] == y;
    assert ([x] + y)[1..] == y;
  }

  lemma TokenizeEmpty()
    ensures Tokenize([]) == []
  {
    NonEmptySingle([]);
  }

  /** The step of `JoinTokenizeAux` for a leading whitespace character. */
  lemma JoinTokenizeSpace(c: char, t: string)
    requires IsSpace(c) && t != [] && !IsSpace(t[0])
    requires Join(Tokenize(t), " ") == t
    ensures Join(Tokenize([c] + t), " ") == t
  {
    TokenizeConsSpace(c, t);
  }

  /** The step of `JoinTokenizeAux` for a character that extends the first token. */
  lemma JoinTokenizeExtend(c: char, t: string)
    requires !IsSpace(c) && t != [] && !IsSpace(t[0])
    requires Join(Tokenize(t), " ") == t
    ensures Join(Tokenize([c] + t), " ") == [c] + t
  {
    TokenizeConsExtend(c, t);
    var tt := Tokenize(t);
    assert tt == [tt[0]] + tt[1..];
    JoinConsChar(c, tt[0], tt[1..], " ");
  }

  /** The step of `JoinTokenizeAux` for a character followed by a single space and a token. */
  lemma JoinTokenizeNew(c: char, t: string)
    requires !IsSpace(c) && |t| >= 2 && t[0] == ' ' && !IsSpace(t[1])
    requires Join(Tokenize(t), " ") == t[1..]
    ensures Join(Tokenize([c] + t), " ") == [c] + t
  {
    TokenizeConsNew(c, t);
    var t1 := t[1..];
    assert t == [t[0]] + t1 && t1[0] == t[1];
    TokenizeCons(t[0], t1);
    var tt := Tokenize(t);
    assert tt != [];
    assert ([[c]] + tt)[1..] == tt;
    assert t == " " + t1;
  }

  lemma {:induction false} JoinTokenizeAux(t: string)
    requires SingleSpaced(t) && (t != [] ==> !IsSpace(t[|t| - 1]))
    ensures Join(Tokenize(t), " ") == if t != [] && IsSpace(t[0]) then t[1..] else t
    decreases |t|
  {
    TokenizeEmpty();
    if t != [] {
      var c, t' := t[0], t[1..];
      assert t == [c] + t';
      SingleSpacedSlice(t, 1, |t|);
      JoinTokenizeAux(t');
      if t' == [] {
        TokenizeConsNew(c, t');
      } else if IsSpace(c) {
        assert t'[0] == t[1];
        JoinTokenizeSpace(c, t');
      } else if !IsSpace(t'[0]) {
        JoinTokenizeExtend(c, t');
      } else {
        assert |t| > 2 && t[1] == ' ' && !IsSpace(t[2]);
        assert t'[0] == t[1] && t'[1] == t[2];
        JoinTokenizeNew(c, t');
      }
    }
  }

  /** Joining the tokens of a clean text with single spaces gives the text back. */
  lemma JoinTokenize(t: string)
    requires Clean(t)
    ensures Join(Tokenize(t), " ") == t
  {
    JoinTokenizeAux(t);
  }

  lemma {:induction false} TokenizeWordThen(w: string, t: string)
    requires IsWord(w) && (t == [] || IsSpace(t[0]))
    ensures Tokenize(w + t) == [w] + Tokenize(t)
    decreases |w|
  {
    var c, w' := w[0], w[1..];
    assert w + t == [c] + (w' + t);
    TokenizeCons(c, w' + t);
    if w' == [] {
      assert w' + t == t;
    } else {
      assert IsWord(w') by {
        forall i | 0 <= i < |w'| ensures !IsSpace(w'[i]) {
          assert w'[i] == w[i + 1];
        }
      }
      assert (w' + t)[0] == w'[0];
      TokenizeWordThen(w', t);
      var tt := Tokenize(w' + t);
      assert tt[0] == w' && tt[1..] == Tokenize(t);
      assert [c] + w' == w;
    }
  }

  /** Tokenizing words joined with single spaces gives the words back. */
  lemma {:induction false} TokenizeJoin(ws: seq<string>)
    requires forall i :: 0 <= i < |ws| ==> IsWord(ws[i])
    ensures Tokenize(Join(ws, " ")) == ws
    decreases |ws|
  {
    TokenizeEmpty();
    if |ws| == 1 {
      TokenizeWordThen(ws[0], []);
      assert ws[0] + [] == ws[0];
    } else if |ws| > 1 {
      var j := Join(ws[1..], " ");
      assert Join(ws, " ") == ws[0] + ([' '] + j);
      TokenizeWordSpace(ws[0], j);
      TokenizeJoin(ws[1..]);
    }
  }

  /** A token, a space, and then any text: the token comes first, then the text's tokens. */
  lemma TokenizeWordSpace(w: string, t: string)
    requires IsWord(w)
    ensures Tokenize(w + ([' '] + t)) == [w] + Tokenize(t)
  {
    TokenizeWordThen(w, [' '] + t);
    TokenizeConsSpace(' ', t);
  }

  lemma WordClean(w: string)
    requires IsWord(w)
    ensures Clean(w)
  {
  }

  lemma SpaceJoinClean(a: string, b: string)
    requires IsWord(a) && Clean(b) && b != []
    ensures Clean(a + [' '] + b)
  {
    var t := a + [' '] + b;
    forall i | 0 <= i < |t| && IsSpace(t[i]) ensures t[i] == ' ' {
      if i > |a| {
        assert t[i] == b[i - |a| - 1];
      }
    }
    forall i | 0 <= i < |t| - 1 && IsSpace(t[i]) ensures !IsSpace(t[i + 1]) {
      if i == |a| {
        assert t[i + 1] == b[0];
      } else {
        assert i > |a|;
        assert t[i] == b[i - |a| - 1] && t[i + 1] == b[i - |a|];
      }
    }
    assert t[|t| - 1] == b[|b| - 1];
  }

  /** Words joined with single spaces form a clean text, the shape `cleanText` produces. */
  lemma {:induction false} JoinWordsClean(ws: seq<string>)
    requires forall i :: 0 <= i < |ws| ==> IsWord(ws[i])
    ensures Clean(Join(ws, " "))
    ensures ws != [] ==> Join(ws, " ") != []
    decreases |ws|
  {
    if |ws| == 1 {
      WordClean(ws[0]);
    } else if |ws| > 1 {
      JoinWordsClean(ws[1..]);
      SpaceJoinClean(ws[0], Join(ws[1..], " "));
    }
  }

  /** The step of `TokenizeCollapse` for a leading non-whitespace character. */
  lemma CollapseConsWord(c: char, s: string)
    requires !IsSpace(c) && Tokenize(Collapse(s)) == Tokenize(s)
    ensures Tokenize(Collapse([c] + s)) == Tokenize([c] + s)
  {
    assert ([c] + s)[1..] == s;
    assert Collapse([c] + s) == [c] + Collapse(s);
    TokenizeCons(c, s);
    TokenizeCons(c, Collapse(s));
  }

  /** The step of `TokenizeCollapse` for whitespace followed by more whitespace. */
  lemma CollapseConsRun(c: char, s: string)
    requires IsSpace(c) && s != [] && IsSpace(s[0]) && Tokenize(Collapse(s)) == Tokenize(s)
    ensures Tokenize(Collapse([c] + s)) == Tokenize([c] + s)
  {
    assert ([c] + s)[1..] == s && ([c] + s)[1] == s[0];
    assert Collapse([c] + s) == Collapse(s);
    TokenizeConsSpace(c, s);
  }

  /** The step of `TokenizeCollapse` for whitespace that ends a run. */
  lemma CollapseConsSpace(c: char, s: string)
    requires IsSpace(c) && (s == [] || !IsSpace(s[0])) && Tokenize(Collapse(s)) == Tokenize(s)
    ensures Tokenize(Collapse([c] + s)) == Tokenize([c] + s)
  {
    assert ([c] + s)[1..] == s;
    assert s != [] ==> ([c] + s)[1] == s[0];
    assert Collapse([c] + s) == [' '] + Collapse(s);
    TokenizeConsSpace(c, s);
    TokenizeConsSpace(' ', Collapse(s));
  }

  lemma {:induction false} TokenizeCollapse(s: string)
    ensures Tokenize(Collapse(s)) == Tokenize(s)
    decreases |s|
  {
    if s != [] {
      var c, s' := s[0], s[1..];
      assert s == [c] + s';
      TokenizeCollapse(s');
      if !IsSpace(c) {
        CollapseConsWord(c, s');
      } else if s' != [] && IsSpace(s'[0]) {
        CollapseConsRun(c, s');
      } else {
        CollapseConsSpace(c, s');
      }
    }
  }

  lemma {:induction false} TokenizeTrimStart(s: string)
    ensures Tokenize(TrimStart(s)) == Tokenize(s)
    decreases |s|
  {
    if s != [] && IsSpace(s[0]) {
      assert s == [s[0]] + s[1..];
      TokenizeCons(s[0], s[1..]);
      TokenizeTrimStart(s[1..]);
    }
  }

  lemma {:induction false} TokenizeSnocSpace(s: string, c: char)
    requires IsSpace(c)
    ensures Tokenize(s + [c]) == Tokenize(s)
    decreases |s|
  {
    if s == [] {
      assert s + [c] == [c] + [];
      TokenizeCons(c, []);
    } else {
      var d, s' := s[0], s[1..];
      assert s == [d] + s';
      assert s + [c] == [d] + (s' + [c]);
      TokenizeCons(d, s' + [c]);
      TokenizeCons(d, s');
      TokenizeSnocSpace(s', c);
      if s' != [] {
        assert (s' + [c])[0] == s'[0];
      }
    }
  }

  lemma {:induction false} TokenizeTrimEnd(s: string)
    ensures Tokenize(TrimEnd(s)) == Tokenize(s)
    decreases |s|
  {
    if s != [] && IsSpace(s[|s| - 1]) {
      assert s == s[..|s| - 1] + [s[|s| - 1]];
      TokenizeSnocSpace(s[..|s| - 1], s[|s| - 1]);
      TokenizeTrimEnd(s[..|s| - 1]);
    }
  }

  /** Cleaning a text does not change the words the fallback tokenizer finds in it. */
  lemma TokenizeCleanText(nfkc: string -> string, text: string)
    ensures Tokenize(CleanText(nfkc, text)) == Tokenize(nfkc(text))
  {
    var collapsed := Collapse(nfkc(text));
    TokenizeCollapse(nfkc(text));
    TokenizeTrimStart(collapsed);
    TokenizeTrimEnd(TrimStart(collapsed));
  }

  /** `cleanText` is the tokens of the normalised text joined by single spaces. */
  lemma CleanTextJoin(nfkc: string -> string, text: string)
    ensures CleanText(nfkc, text) == Join(Tokenize(nfkc(text)), " ")
  {
    TokenizeCleanText(nfkc, text);
    JoinTokenize(CleanText(nfkc, text));
  }

  lemma {:induction false} CollapseFixed(s: string)
    requires SingleSpaced(s)
    ensures Collapse(s) == s
    decreases |s|
  {
    if s != [] {
      SingleSpacedSlice(s, 1, |s|);
      CollapseFixed(s[1..]);
      if IsSpace(s[0]) {
        assert s[0] == ' ';
        assert !(|s| > 1 && IsSpace(s[1]));
      }
    }
  }

  /** Collapsing and trimming leave a clean text as it is. */
  lemma CleanFixed(s: string)
    requires Clean(s)
    ensures Trim(Collapse(s)) == s
  {
    CollapseFixed(s);
  }

  /** `cleanText` is idempotent wherever the normalisation leaves its output unchanged. */
  lemma CleanTextIdempotent(nfkc: string -> string, text: string)
    requires nfkc(CleanText(nfkc, text)) == CleanText(nfkc, text)
    ensures CleanText(nfkc, CleanText(nfkc, text)) == CleanText(nfkc, text)
  {
    CleanFixed(CleanText(nfkc, text));
  }
}
