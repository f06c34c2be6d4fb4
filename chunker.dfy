/**
 The token-bounded chunker of multi_audio_test.py (`chunk_text`). The
 narration is cut into its whitespace-separated words, and the words are
 packed left to right into chunks: a word joins the current chunk unless the
 BERT token count of the chunk with that word, plus the two special tokens
 `[CLS]` and `[SEP]`, would exceed `maxTokens`; then the current chunk is
 closed and the word starts the next one. The tokenizer is the parameter
 `tok`, which gives the number of tokens of a text; nothing else is assumed
 about it (not even that a longer text has more tokens).
 */
module Chunker {
  import opened PyText

  /** The default value of `max_tokens`. */
  const DEFAULT_MAX_TOKENS: int := 400

  /** `[CLS]` and `[SEP]`, which BERT adds around every input. */
  const SPECIAL_TOKENS: nat := 2

  /** These words, joined by single spaces, need more tokens than the limit allows. */
  predicate Overflows(words: seq<string>, maxTokens: int, tok: string -> nat) {
    tok(Join(words)) + SPECIAL_TOKENS > maxTokens
  }

  /** A chunk of at most one word, or one whose token count is within the limit. */
  predicate Fits(words: seq<string>, maxTokens: int, tok: string -> nat) {
    |words| <= 1 || !Overflows(words, maxTokens, tok)
  }

  /** `next` starts with a word that would have overflowed `prev`. */
  predicate ClosedBefore(prev: seq<string>, next: seq<string>, maxTokens: int, tok: string -> nat) {
    next != [] && Overflows(prev + [next[0]], maxTokens, tok)
  }

  /** The chunks, as word lists, that the loop emits from `words` on when the
      current chunk already holds `current`: the specification of the loop. */
  function Pack(words: seq<string>, current: seq<string>, maxTokens: int, tok: string -> nat)
    : seq<seq<string>>
    decreases |words|
  {
    if words == [] then [current]
    else if Overflows(current + [words[0]], maxTokens, tok) then
      [current] + Pack(words[1..], [words[0]], maxTokens, tok)
    else Pack(words[1..], current + [words[0]], maxTokens, tok)
  }

  /** The chunks of `text` as word lists. */
  function ChunkWords(text: string, maxTokens: int, tok: string -> nat): seq<seq<string>> {
    Pack(Split(text), [], maxTokens, tok)
  }

  function JoinEach(cs: seq<seq<string>>): seq<string> {
    seq(|cs|, k requires 0 <= k < |cs| => Join(cs[k]))
  }

  function SplitEach(cs: seq<string>): seq<seq<string>> {
    seq(|cs|, k requires 0 <= k < |cs| => Split(cs[k]))
  }

  /** The concatenation of a list of lists. */
  function Flatten<T>(xss: seq<seq<T>>): seq<T> {
    if xss == [] then [] else xss[0] + Flatten(xss[1..])
  }

  /** What `chunk_text(text, maxTokens)` returns. */
  function Chunks(text: string, maxTokens: int, tok: string -> nat): seq<string> {
    JoinEach(ChunkWords(text, maxTokens, tok))
  }

  /** `chunk_text`: one pass over the words, one tokenizer call per word;
      `maxTokens` is 400 unless the caller gives it. */
  method ChunkText(text: string, tok: string -> nat, maxTokens: int := DEFAULT_MAX_TOKENS)
    returns (chunks: seq<string>, ghost tokenizerCalls: nat)
    ensures chunks == Chunks(text, maxTokens, tok)
    ensures tokenizerCalls == |Split(text)|
  {
    chunks := [];
    var words := Split(text);
    var currentChunkWords: seq<string> := [];
    tokenizerCalls := 0;
    for i := 0 to |words|
      invariant tokenizerCalls == i
      invariant chunks + JoinEach(Pack(words[i..], currentChunkWords, maxTokens, tok))
                == Chunks(text, maxTokens, tok)
    {
      var word := words[i];
      assert words[i..] == [word] + words[i + 1..];
      var futureChunk := Join(currentChunkWords + [word]);
      var futureTokens := tok(futureChunk);
      tokenizerCalls := tokenizerCalls + 1;
      if futureTokens + SPECIAL_TOKENS > maxTokens {
        JoinEachCons(currentChunkWords, Pack(words[i + 1..], [word], maxTokens, tok));
        chunks := chunks + [Join(currentChunkWords)];
        currentChunkWords := [word];
      } else {
        currentChunkWords := currentChunkWords + [word];
      }
    }
    chunks := chunks + [Join(currentChunkWords)];
  }

  lemma JoinEachCons(c: seq<string>, cs: seq<seq<string>>)
    ensures JoinEach([c] + cs) == [Join(c)] + JoinEach(cs)
  {
    assert forall k | 1 <= k < |cs| + 1 :: ([c] + cs)[k] == cs[k - 1];
  }

  // Properties of the loop's specification, on word lists.

  /** The chunks hold the current words and then every remaining word, in order. */
  lemma {:induction false} PackCovers(words: seq<string>, current: seq<string>, maxTokens: int,
                                     tok: string -> nat)
    ensures Flatten(Pack(words, current, maxTokens, tok)) == current + words
    decreases |words|
  {
    if words != [] {
      var w, rest := words[0], words[1..];
      assert words == [w] + rest;
      if Overflows(current + [w], maxTokens, tok) {
        var p := Pack(rest, [w], maxTokens, tok);
        PackCovers(rest, [w], maxTokens, tok);
        assert ([current] + p)[1..] == p;
        assert current + ([w] + rest) == current + words;
      } else {
        PackCovers(rest, current + [w], maxTokens, tok);
        assert current + [w] + rest == current + words;
      }
    }
  }

  /** There is always a first chunk: the current words followed by the next
      `m` words, in order, for some `m`. */
  lemma {:induction false} PackStartsWithCurrent(words: seq<string>, current: seq<string>,
                                                maxTokens: int, tok: string -> nat,
                                                cs: seq<seq<string>>)
    requires cs == Pack(words, current, maxTokens, tok)
    ensures |cs| >= 1 && |cs[0]| >= |current| && cs[0][..|current|] == current
    ensures exists m | 0 <= m <= |words| :: cs[0] == current + words[..m]
    decreases |words|
  {
    if words == [] {
      assert cs[0] == current + words[..0];
    } else {
      var w, rest := words[0], words[1..];
      if Overflows(current + [w], maxTokens, tok) {
        PackStartsWithCurrent(rest, [w], maxTokens, tok, Pack(rest, [w], maxTokens, tok));
        assert cs[0] == current + words[..0];
      } else {
        var p := Pack(rest, current + [w], maxTokens, tok);
        PackStartsWithCurrent(rest, current + [w], maxTokens, tok, p);
        assert p[0][..|current|] == p[0][..|current| + 1][..|current|];
        assert (current + [w])[..|current|] == current;
        var m :| 0 <= m <= |rest| && p[0] == current + [w] + rest[..m];
        assert words[..m + 1] == [w] + rest[..m];
        assert cs[0] == current + words[..m + 1];
      }
    }
  }

  /** Every chunk after the first holds at least one word. */
  lemma {:induction false} PackLaterChunksNonEmpty(words: seq<string>, current: seq<string>,
                                                  maxTokens: int, tok: string -> nat,
                                                  cs: seq<seq<string>>)
    requires cs == Pack(words, current, maxTokens, tok)
    ensures forall k | 1 <= k < |cs| :: cs[k] != []
    decreases |words|
  {
    if words != [] {
      var w, rest := words[0], words[1..];
      if Overflows(current + [w], maxTokens, tok) {
        var p := Pack(rest, [w], maxTokens, tok);
        assert cs == [current] + p;
        PackLaterChunksNonEmpty(rest, [w], maxTokens, tok, p);
        PackStartsWithCurrent(rest, [w], maxTokens, tok, p);
        assert p[0] != [];
        assert forall k | 1 <= k < |cs| :: cs[k] == p[k - 1];
      } else {
        PackLaterChunksNonEmpty(rest, current + [w], maxTokens, tok, cs);
      }
    }
  }

  /** If the current chunk fits, every chunk emitted fits. */
  lemma {:induction false} PackFits(words: seq<string>, current: seq<string>, maxTokens: int,
                                   tok: string -> nat, cs: seq<seq<string>>)
    requires Fits(current, maxTokens, tok)
    requires cs == Pack(words, current, maxTokens, tok)
    ensures forall k | 0 <= k < |cs| :: Fits(cs[k], maxTokens, tok)
    decreases |words|
  {
    if words != [] {
      var w, rest := words[0], words[1..];
      if Overflows(current + [w], maxTokens, tok) {
        var p := Pack(rest, [w], maxTokens, tok);
        assert cs == [current] + p;
        PackFits(rest, [w], maxTokens, tok, p);
        assert forall k | 1 <= k < |cs| :: cs[k] == p[k - 1];
      } else {
        PackFits(rest, current + [w], maxTokens, tok, cs);
      }
    }
  }

  /** A chunk is closed only when the next chunk's first word would overflow it. */
  lemma {:induction false} PackMaximal(words: seq<string>, current: seq<string>, maxTokens: int,
                                      tok: string -> nat, cs: seq<seq<string>>)
    requires cs == Pack(words, current, maxTokens, tok)
    ensures forall k | 0 <= k < |cs| - 1 :: ClosedBefore(cs[k], cs[k + 1], maxTokens, tok)
    decreases |words|
  {
    if words != [] {
      var w, rest := words[0], words[1..];
      if Overflows(current + [w], maxTokens, tok) {
        var p := Pack(rest, [w], maxTokens, tok);
        assert cs == [current] + p;
        PackMaximal(rest, [w], maxTokens, tok, p);
        PackStartsWithCurrent(rest, [w], maxTokens, tok, p);
        assert p[0][..1] == [w];
        assert forall k | 1 <= k < |cs| :: cs[k] == p[k - 1];
      } else {
        PackMaximal(rest, current + [w], maxTokens, tok, cs);
      }
    }
  }

  /** Chunks of words hold only words. */
  lemma {:induction false} PackWords(words: seq<string>, current: seq<string>, maxTokens: int,
                                    tok: string -> nat, cs: seq<seq<string>>)
    requires AllWords(words) && AllWords(current)
    requires cs == Pack(words, current, maxTokens, tok)
    ensures forall k | 0 <= k < |cs| :: AllWords(cs[k])
    decreases |words|
  {
    if words != [] {
      var w, rest := words[0], words[1..];
      assert AllWords(rest);
      if Overflows(current + [w], maxTokens, tok) {
        var p := Pack(rest, [w], maxTokens, tok);
        assert cs == [current] + p;
        PackWords(rest, [w], maxTokens, tok, p);
        assert forall k | 1 <= k < |cs| :: cs[k] == p[k - 1];
      } else {
        assert AllWords(current + [w]);
        PackWords(rest, current + [w], maxTokens, tok, cs);
      }
    }
  }

  // Properties of what `chunk_text` returns.

  /** Splitting a chunk again gives back the words it was built from. */
  lemma SplitChunks(text: string, maxTokens: int, tok: string -> nat)
    ensures SplitEach(Chunks(text, maxTokens, tok)) == ChunkWords(text, maxTokens, tok)
  {
    var cws := ChunkWords(text, maxTokens, tok);
    PackWords(Split(text), [], maxTokens, tok, cws);
    forall k | 0 <= k < |cws|
      ensures Split(Join(cws[k])) == cws[k]
    {
      SplitJoin(cws[k]);
    }
  }

  /** Nothing is dropped, duplicated or reordered: the words of the chunks,
      in order, are the words of the text. */
  lemma ChunksCoverText(text: string, maxTokens: int, tok: string -> nat)
    ensures Flatten(SplitEach(Chunks(text, maxTokens, tok))) == Split(text)
  {
    SplitChunks(text, maxTokens, tok);
    PackCovers(Split(text), [], maxTokens, tok);
  }

  /** There is always a chunk; a text without words gives exactly `[""]`. */
  lemma ChunksNeverEmpty(text: string, maxTokens: int, tok: string -> nat)
    ensures |Chunks(text, maxTokens, tok)| >= 1
    ensures (forall i | 0 <= i < |text| :: IsSpace(text[i])) ==> Chunks(text, maxTokens, tok) == [""]
  {
    PackStartsWithCurrent(Split(text), [], maxTokens, tok, ChunkWords(text, maxTokens, tok));
    SplitBlank(text);
  }

  /** Every chunk is a single word (or none) or needs at most `maxTokens`
      tokens with `[CLS]` and `[SEP]`. */
  lemma ChunksWithinLimit(text: string, maxTokens: int, tok: string -> nat, cs: seq<string>)
    requires cs == Chunks(text, maxTokens, tok)
    ensures forall k | 0 <= k < |cs| ::
      |Split(cs[k])| <= 1 || tok(cs[k]) + SPECIAL_TOKENS <= maxTokens
  {
    var cws := ChunkWords(text, maxTokens, tok);
    SplitChunks(text, maxTokens, tok);
    PackFits(Split(text), [], maxTokens, tok, cws);
    assert forall k | 0 <= k < |cws| :: Split(cs[k]) == cws[k] && cs[k] == Join(cws[k]);
  }

  /** Greedy: every chunk but the last would overflow with the first word of
      the chunk after it. */
  lemma ChunksAreGreedy(text: string, maxTokens: int, tok: string -> nat, cs: seq<string>)
    requires cs == Chunks(text, maxTokens, tok)
    ensures forall k | 0 <= k < |cs| - 1 ::
      ClosedBefore(Split(cs[k]), Split(cs[k + 1]), maxTokens, tok)
  {
    var cws := ChunkWords(text, maxTokens, tok);
    SplitChunks(text, maxTokens, tok);
    PackMaximal(Split(text), [], maxTokens, tok, cws);
    assert forall k | 0 <= k < |cws| :: Split(cs[k]) == cws[k];
  }

  /** Only the first chunk can be empty, and it is empty exactly when the text
      has no words or its first word alone already overflows. */
  lemma OnlyFirstChunkMayBeEmpty(text: string, maxTokens: int, tok: string -> nat, cs: seq<string>)
    requires cs == Chunks(text, maxTokens, tok)
    ensures |cs| >= 1
    ensures forall k | 1 <= k < |cs| :: cs[k] != ""
    ensures cs[0] == "" <==>
      Split(text) == [] || tok(Split(text)[0]) + SPECIAL_TOKENS > maxTokens
  {
    var words := Split(text);
    var cws := ChunkWords(text, maxTokens, tok);
    PackStartsWithCurrent(words, [], maxTokens, tok, cws);
    PackLaterChunksNonEmpty(words, [], maxTokens, tok, cws);
    PackWords(words, [], maxTokens, tok, cws);
    forall k | 0 <= k < |cws|
      ensures cs[k] == "" <==> cws[k] == []
    {
      JoinEmpty(cws[k]);
    }
    if words != [] {
      var w, rest := words[0], words[1..];
      assert [] + [w] == [w];
      if !Overflows([w], maxTokens, tok) {
        PackStartsWithCurrent(rest, [w], maxTokens, tok, cws);
      }
    }
  }

  /** Every chunk is its words joined by single spaces: no leading, trailing
      or repeated whitespace. */
  lemma ChunksAreSingleSpaced(text: string, maxTokens: int, tok: string -> nat, cs: seq<string>)
    requires cs == Chunks(text, maxTokens, tok)
    ensures forall k | 0 <= k < |cs| :: SingleSpaced(cs[k]) && cs[k] == Join(Split(cs[k]))
  {
    var cws := ChunkWords(text, maxTokens, tok);
    SplitChunks(text, maxTokens, tok);
    PackWords(Split(text), [], maxTokens, tok, cws);
    forall k | 0 <= k < |cws|
      ensures SingleSpaced(Join(cws[k]))
    {
      JoinSingleSpaced(cws[k]);
    }
  }
}
