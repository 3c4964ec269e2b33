/**
 * The vocabulary builder (augment.py:32-42): one scan over the corpus that fills
 * `word_to_ix`, `char_to_ix` (seeded with `'PAD' -> 0`) and `training_data2`.
 * The module-level loop is lifted into the method `BuildVocabularies`, which
 * takes the corpus and returns the three structures it fills.
 */
module Vocabulary {
  import opened Tables
  import opened Characters
  import opened Sequences
  import opened Encoders

  /** One training example: a sentence (a list of words) and its tags. */
  datatype Example = Example(sentence: seq<string>, tags: seq<string>)

  /** One entry of `training_data2`: `(list(word), word)`. */
  datatype Spelling = Spelling(chars: seq<string>, word: string)

  /** The reserved padding key of the character table (augment.py:33). */
  const Pad: string := "PAD"

  /** Every word of every sentence, in corpus order. */
  function Words(corpus: seq<Example>): seq<string>
    decreases |corpus|
  {
    if corpus == [] then [] else Words(corpus[..|corpus| - 1]) + corpus[|corpus| - 1].sentence
  }

  /** Scanning one more sentence. */
  lemma WordsSnoc(corpus: seq<Example>, s: nat)
    requires s < |corpus|
    ensures Words(corpus[..s + 1]) == Words(corpus[..s]) + corpus[s].sentence
  {
    assert corpus[..s + 1][..s] == corpus[..s];
  }

  /** What `training_data2` holds after the words `ws` have been scanned: one entry per occurrence. */
  function Spellings(ws: seq<string>): (r: seq<Spelling>)
    ensures |r| == |ws|
    ensures forall i :: 0 <= i < |ws| ==> r[i] == Spelling(Explode(ws[i]), ws[i])
    decreases |ws|
  {
    if ws == [] then [] else Spellings(ws[..|ws| - 1]) + [Spelling(Explode(ws[|ws| - 1]), ws[|ws| - 1])]
  }

  /** Recording one more word occurrence. */
  lemma SpellingsSnoc(ws: seq<string>, w: string)
    ensures Spellings(ws + [w]) == Spellings(ws) + [Spelling(Explode(w), w)]
  {
  }

  /** Recording the occurrences of two word lists one after the other. */
  lemma SpellingsAppend(a: seq<string>, b: seq<string>)
    ensures Spellings(a + b) == Spellings(a) + Spellings(b)
  {
  }

  /** Word `i` of sentence `e` is among the corpus words. */
  lemma {:induction false} WordsContains(corpus: seq<Example>, e: nat, i: nat)
    requires e < |corpus| && i < |corpus[e].sentence|
    ensures corpus[e].sentence[i] in Words(corpus)
    decreases |corpus|
  {
    if e == |corpus| - 1 {
      assert Words(corpus)[|Words(corpus[..|corpus| - 1])| + i] == corpus[e].sentence[i];
    } else {
      WordsContains(corpus[..|corpus| - 1], e, i);
    }
  }

  /** `word_to_ix` after the scan. */
  function WordTable(corpus: seq<Example>): Table {
    Index(map[], Words(corpus))
  }

  /** `char_to_ix` after the scan. */
  function CharTable(corpus: seq<Example>): Table {
    Index(map[Pad := 0], CharsOf(Words(corpus)))
  }

  /**
   * One word occurrence (augment.py:37-42): record `(list(word), word)`, give
   * each first-seen character of the word the next character index, then give
   * the word the next word index if it is new.
   */
  method ScanWord(word: string, wordToIx: Table, charToIx: Table, trainingData2: seq<Spelling>)
    returns (wordToIx': Table, charToIx': Table, trainingData2': seq<Spelling>)
    ensures wordToIx' == Insert(wordToIx, word)
    ensures charToIx' == Index(charToIx, Explode(word))
    ensures trainingData2' == trainingData2 + [Spelling(Explode(word), word)]
  {
    trainingData2' := trainingData2 + [Spelling(Explode(word), word)];
    charToIx' := charToIx;
    assert word[..0] == [];
    for c := 0 to |word|
      invariant charToIx' == Index(charToIx, Explode(word[..c]))
    {
      var ch := [word[c]];
      ExplodeSnoc(word, c);
      IndexSnoc(charToIx, Explode(word[..c]), ch);
      if ch !in charToIx' {
        charToIx' := charToIx'[ch := |charToIx'|];
      }
    }
    assert word[..|word|] == word;
    wordToIx' := wordToIx;
    if word !in wordToIx' {
      wordToIx' := wordToIx'[word := |wordToIx'|];
    }
  }

  /** One sentence (the body of augment.py:35): every word occurrence in order. */
  method ScanSentence(sent: seq<string>, wordToIx: Table, charToIx: Table, trainingData2: seq<Spelling>)
    returns (wordToIx': Table, charToIx': Table, trainingData2': seq<Spelling>)
    ensures wordToIx' == Index(wordToIx, sent)
    ensures charToIx' == Index(charToIx, CharsOf(sent))
    ensures trainingData2' == trainingData2 + Spellings(sent)
  {
    wordToIx', charToIx', trainingData2' := wordToIx, charToIx, trainingData2;
    assert sent[..0] == [];
    for w := 0 to |sent|
      invariant wordToIx' == Index(wordToIx, sent[..w])
      invariant charToIx' == Index(charToIx, CharsOf(sent[..w]))
      invariant trainingData2' == trainingData2 + Spellings(sent[..w])
    {
      var word := sent[w];
      wordToIx', charToIx', trainingData2' := ScanWord(word, wordToIx', charToIx', trainingData2');
      TakeSnoc(sent, w);
      CharsOfSnoc(sent[..w], word);
      IndexAppend(charToIx, CharsOf(sent[..w]), Explode(word));
      IndexSnoc(wordToIx, sent[..w], word);
      SpellingsSnoc(sent[..w], word);
    }
    assert sent[..|sent|] == sent;
  }

  /**
   * The scan of augment.py:32-42. For every word occurrence it appends
   * `(list(word), word)` to `training_data2`, gives every first-seen character
   * the next character index and every first-seen word the next word index.
   */
  method BuildVocabularies(corpus: seq<Example>)
    returns (wordToIx: Table, charToIx: Table, trainingData2: seq<Spelling>)
    ensures wordToIx == WordTable(corpus)
    ensures charToIx == CharTable(corpus)
    ensures trainingData2 == Spellings(Words(corpus))
  {
    wordToIx := map[];
    charToIx := map[Pad := 0];
    trainingData2 := [];
    for s := 0 to |corpus|
      invariant wordToIx == Index(map[], Words(corpus[..s]))
      invariant charToIx == Index(map[Pad := 0], CharsOf(Words(corpus[..s])))
      invariant trainingData2 == Spellings(Words(corpus[..s]))
    {
      ghost var before := Words(corpus[..s]);
      var sent := corpus[s].sentence;
      wordToIx, charToIx, trainingData2 := ScanSentence(sent, wordToIx, charToIx, trainingData2);
      WordsSnoc(corpus, s);
      IndexAppend(map[], before, sent);
      CharsOfAppend(before, sent);
      IndexAppend(map[Pad := 0], CharsOf(before), CharsOf(sent));
      SpellingsAppend(before, sent);
    }
    assert corpus[..|corpus|] == corpus;
  }

  /** Both tables are dense and injective: their indices are exactly `0 .. size - 1`. */
  lemma TablesDense(corpus: seq<Example>)
    ensures Dense(WordTable(corpus))
    ensures Dense(CharTable(corpus))
  {
    IndexDense(map[], [], Words(corpus));
    IndexDense(map[Pad := 0], [Pad], CharsOf(Words(corpus)));
  }

  /**
   * `'PAD'` keeps index 0, and every observed character is a one-character key
   * (so never `'PAD'`) whose index is at least 1.
   */
  lemma PadReserved(corpus: seq<Example>)
    ensures Pad in CharTable(corpus) && CharTable(corpus)[Pad] == 0
    ensures forall c :: c in CharsOf(Words(corpus)) ==>
              |c| == 1 && c != Pad && c in CharTable(corpus) && CharTable(corpus)[c] >= 1
  {
    var ws := Words(corpus);
    IndexGrows(map[Pad := 0], CharsOf(ws));
    IndexKeys(map[Pad := 0], CharsOf(ws));
    CharsOfAreSingle(ws);
    TablesDense(corpus);
  }

  /** Every word of every sentence, and every character of every such word, is a key. */
  lemma CorpusCovered(corpus: seq<Example>)
    ensures forall e, i :: 0 <= e < |corpus| && 0 <= i < |corpus[e].sentence| ==>
              corpus[e].sentence[i] in WordTable(corpus)
    ensures forall e, i, j :: 0 <= e < |corpus| && 0 <= i < |corpus[e].sentence| && 0 <= j < |corpus[e].sentence[i]| ==>
              [corpus[e].sentence[i][j]] in CharTable(corpus)
  {
    var ws := Words(corpus);
    IndexKeys(map[], ws);
    IndexKeys(map[Pad := 0], CharsOf(ws));
    forall e, i | 0 <= e < |corpus| && 0 <= i < |corpus[e].sentence|
      ensures corpus[e].sentence[i] in WordTable(corpus)
    {
      WordsContains(corpus, e, i);
    }
    forall e, i, j | 0 <= e < |corpus| && 0 <= i < |corpus[e].sentence| && 0 <= j < |corpus[e].sentence[i]|
      ensures [corpus[e].sentence[i][j]] in CharTable(corpus)
    {
      CorpusCharRead(corpus, e, i, j);
    }
  }

  /**
   * Encoding a corpus sentence with the word table it built never fails, and
   * the insertion-ordered word list decodes the indices back into the sentence.
   */
  lemma SentencesEncodable(corpus: seq<Example>, e: nat)
    requires e < |corpus|
    ensures PrepareSentenceSequence(corpus[e].sentence, WordTable(corpus)).Ok?
    ensures forall i :: 0 <= i < |corpus[e].sentence| ==>
              PrepareSentenceSequence(corpus[e].sentence, WordTable(corpus)).value[i] < |Order([], Words(corpus))| &&
              Order([], Words(corpus))[PrepareSentenceSequence(corpus[e].sentence, WordTable(corpus)).value[i]]
                == corpus[e].sentence[i]
  {
    CorpusCovered(corpus);
    IndexListed(map[], [], Words(corpus));
    EncodeDecode(corpus[e].sentence, WordTable(corpus), Order([], Words(corpus)));
  }

  /** A word first seen later in the corpus scan has a strictly larger index than every word seen before it. */
  lemma WordsInFirstOccurrenceOrder(corpus: seq<Example>, j: nat)
    requires j < |Words(corpus)| && Words(corpus)[j] !in Words(corpus)[..j]
    ensures Words(corpus)[j] in WordTable(corpus)
    ensures forall k :: k in Words(corpus)[..j] ==>
              k in WordTable(corpus) && WordTable(corpus)[k] < WordTable(corpus)[Words(corpus)[j]]
  {
    FirstOccurrenceOrder(map[], [], Words(corpus), j);
  }

  /** A character first seen later has a strictly larger index than `'PAD'` and every character seen before it. */
  lemma CharsInFirstOccurrenceOrder(corpus: seq<Example>, j: nat)
    requires j < |CharsOf(Words(corpus))| && CharsOf(Words(corpus))[j] !in CharsOf(Words(corpus))[..j]
    ensures CharsOf(Words(corpus))[j] in CharTable(corpus)
    ensures forall k :: (k == Pad || k in CharsOf(Words(corpus))[..j]) ==>
              k in CharTable(corpus) && CharTable(corpus)[k] < CharTable(corpus)[CharsOf(Words(corpus))[j]]
  {
    var cs := CharsOf(Words(corpus));
    CharsOfAreSingle(Words(corpus));
    assert cs[j] in cs;
    FirstOccurrenceOrder(map[Pad := 0], [Pad], cs, j);
  }

  /** Character `j` of word `i` of sentence `e` is among the characters the scan reads. */
  lemma CorpusCharRead(corpus: seq<Example>, e: nat, i: nat, j: nat)
    requires e < |corpus| && i < |corpus[e].sentence| && j < |corpus[e].sentence[i]|
    ensures [corpus[e].sentence[i][j]] in CharsOf(Words(corpus))
  {
    var ws := Words(corpus);
    WordsContains(corpus, e, i);
    var k :| 0 <= k < |ws| && ws[k] == corpus[e].sentence[i];
    CharsOfContains(ws, k, j);
  }

  /**
   * The inputs of one training step (augment.py:125-126), and of the final
   * scoring (augment.py:140-141): a corpus sentence encoded with the tables
   * built from that same corpus. Neither lookup can fail; the word indices
   * decode back to the sentence through the insertion order of `word_to_ix`,
   * and no character is encoded as the padding index 0.
   */
  method PrepareInputs(corpus: seq<Example>, wordToIx: Table, charToIx: Table, e: nat)
    returns (sentenceIn: seq<nat>, wordListIn: seq<seq<nat>>)
    requires wordToIx == WordTable(corpus) && charToIx == CharTable(corpus)
    requires e < |corpus|
    ensures PrepareSentenceSequence(corpus[e].sentence, wordToIx) == Ok(sentenceIn)
    ensures |sentenceIn| == |corpus[e].sentence|
    ensures forall i :: 0 <= i < |sentenceIn| ==>
              corpus[e].sentence[i] in wordToIx && sentenceIn[i] == wordToIx[corpus[e].sentence[i]]
    ensures forall i :: 0 <= i < |sentenceIn| ==>
              sentenceIn[i] < |Order([], Words(corpus))| &&
              Order([], Words(corpus))[sentenceIn[i]] == corpus[e].sentence[i]
    ensures |wordListIn| == |corpus[e].sentence|
    ensures forall i :: 0 <= i < |wordListIn| ==>
              |wordListIn[i]| == |corpus[e].sentence[i]| &&
              forall j :: 0 <= j < |wordListIn[i]| ==>
                [corpus[e].sentence[i][j]] in charToIx &&
                wordListIn[i][j] == charToIx[[corpus[e].sentence[i][j]]] && 1 <= wordListIn[i][j] < |charToIx|
  {
    var sent := corpus[e].sentence;
    SentencesEncodable(corpus, e);
    CorpusCovered(corpus);
    var r := PrepareSentenceSequence(sent, wordToIx);
    sentenceIn := r.value;
    var q := PrepareWordSequence(sent, charToIx);
    wordListIn := q.value;
    PadReserved(corpus);
    TablesDense(corpus);
    forall i, j | 0 <= i < |sent| && 0 <= j < |sent[i]|
      ensures 1 <= charToIx[[sent[i][j]]] < |charToIx|
    {
      CorpusCharRead(corpus, e, i, j);
      assert charToIx[[sent[i][j]]] in charToIx.Values;
    }
  }
}
