# Vocabulary indexing and index encoding of the character-augmented tagger

`augment.py` trains a small part-of-speech tagger. The tagger reads each word both as a
word embedding and as a character-level encoding. Before any numeric work, the script
does two things:

- It scans the training corpus once and builds two dictionaries. `word_to_ix` maps every
  distinct word to a dense index. `char_to_ix` maps every distinct character to a dense
  index and is seeded with the padding key `'PAD' -> 0`. The same scan fills
  `training_data2` with one `(list(word), word)` pair per word occurrence.
- Its two encoders turn tokens into index sequences. `prepare_sentence_sequence` maps
  each token through a table. `prepare_word_sequence` maps each word to the list of its
  character indices.

This project models that indexing logic in Dafny and proves what the script relies on.

- Both tables are dense and injective. Their indices are exactly `0 .. size-1`.
- A key that is already present never changes, and a new key gets `len(table)`.
- Indices follow the order in which keys are first seen.
- `'PAD'` keeps index 0, and no observed character ever gets index 0.
- Every word and every character of the corpus is a key, so encoding a corpus sentence
  cannot raise `KeyError`.
- The encoders preserve length and look up every position correctly.
- A missing key is reported as the first missing key in scan order.

Modules:

- `Sequences` (`sequences.dfy`) holds one general fact about sequence prefixes, which the
  scanning modules share.
- `Characters` (`characters.dfy`) models a character as a one-character string, because
  iterating a Python 3 `str` yields strings of length one. `Explode` is `list(word)`.
  `CharsOf` is the reading order of the builder's two inner loops.
- `Tables` (`tables.dfy`) models a dictionary as `map<string, nat>`. `Insert` is the
  idiom `if k not in d: d[k] = len(d)`, and `Index` is a scan of such inserts. The
  dictionary's insertion order is the sequence `Order`. `Listed(t, o)` says that `o`
  lists the keys of `t` by index.
- `Encoders` (`encoders.dfy`) holds the two encoders. A Python `KeyError` is the result
  `KeyError(key)`.
- `Vocabulary` (`vocabulary.dfy`) lifts the module-level scan into the method
  `BuildVocabularies`. Each of the source's three nested loops is one method:
  `BuildVocabularies` walks the sentences, `ScanSentence` the words and `ScanWord` the
  characters. Each method is proved against the functions `Index`, `CharsOf` and
  `Spellings`, and the lemmas beside them state the source's promises.

## Model

| member | source | states |
|---|---|---|
| `Characters.Explode` | augment.py:37 | `list(word)` has one entry per character, and entry `j` is the one-character string of character `j` |
| `Characters.JoinExplode` | augment.py:37 | joining the entries of `list(word)` gives the word back, so `training_data2`'s characters spell its word |
| `Tables.Insert` | augment.py:39-42 | inserting a present key leaves the table unchanged; a new key gets index `len(table)` and grows the table by one; old entries keep their index |
| `Tables.IndexListed` | augment.py:39-42 | after any scan, the insertion-ordered key list maps index `i` to the key with index `i`, and every key to its own index |
| `Tables.IndexDense` | augment.py:39-42 | after any scan from a listed table, distinct keys have distinct indices, and the indices are exactly `0 .. size-1` |
| `Tables.IndexKeys` | augment.py:35-42 | after a scan, the keys are exactly the initial keys plus every scanned token |
| `Tables.IndexGrows` | augment.py:39-42 | monotone growth: an entry already present keeps its index, and the table never shrinks |
| `Tables.IndexPrefix` | augment.py:35-42 | the table built from a prefix of the scan is contained, index for index, in the final table |
| `Tables.RepeatChangesNothing` | augment.py:39-42 | a token seen again leaves the table exactly as it was |
| `Tables.FirstOccurrenceOrder` | augment.py:39-42 | a token first seen at position `j` gets a strictly larger index than every earlier token and every seeded key |
| `Encoders.PrepareSentenceSequence` | augment.py:14-17 | succeeds exactly when every token is a key; then it has the same length and element `i` is `to_ix[seq[i]]`; otherwise it fails with the first missing token |
| `Encoders.FirstMissingPrefix` | augment.py:15 | a missing key found in a prefix is the first missing key of any extension |
| `Encoders.FirstMissingAfter` | augment.py:15 | after a fully known prefix, the first missing key of the rest is the first missing key of the whole |
| `Encoders.PrepareWordSequence` | augment.py:18-26 | succeeds exactly when every character of every word is a key; then it gives one vector per word, in order, where vector `i` has length `len(seq[i])` and element `j` is `to_ix[seq[i][j]]`; otherwise it fails with the first missing character in reading order |
| `Encoders.EncodeDecode` | augment.py:14-17 | with a listed table, the key list decodes an encoded sentence back into the sentence, and two positions get equal indices exactly when they hold equal tokens |
| `Vocabulary.Spellings` | augment.py:37 | `training_data2` has exactly one `(list(word), word)` entry per word occurrence, in corpus order |
| `Vocabulary.ScanWord` | augment.py:37-42 | one word occurrence appends its spelling, inserts its characters in order, then inserts the word |
| `Vocabulary.ScanSentence` | augment.py:36-42 | one sentence scans its words in order into both tables and `training_data2` |
| `Vocabulary.BuildVocabularies` | augment.py:32-42 | the built `word_to_ix` is the scan of all corpus words from `{}`, `char_to_ix` is the scan of all their characters from `{'PAD': 0}`, and `training_data2` holds one spelling per word occurrence |
| `Vocabulary.TablesDense` | augment.py:32-42 | both built tables are injective, and their indices are exactly `0 .. size-1` |
| `Vocabulary.PadReserved` | augment.py:33-40 | `'PAD'` keeps index 0; every observed character is a one-character key other than `'PAD'`, and its index is at least 1 |
| `Vocabulary.CorpusCovered` | augment.py:35-42 | every word of every sentence is a key of `word_to_ix`, and every character of every such word is a key of `char_to_ix` |
| `Vocabulary.CorpusCharRead` | augment.py:36-38 | every character of every corpus word is among the characters the scan reads |
| `Vocabulary.SentencesEncodable` | augment.py:125 | encoding a corpus sentence with the built word table never fails, and the insertion order decodes it back |
| `Vocabulary.WordsInFirstOccurrenceOrder` | augment.py:41-42 | a word first seen later in the corpus has a strictly larger index than every word seen before it |
| `Vocabulary.CharsInFirstOccurrenceOrder` | augment.py:38-40 | a character first seen later has a strictly larger index than `'PAD'` and every character seen before it |
| `Vocabulary.PrepareInputs` | augment.py:125-126 | `prepare_sentence_sequence` on a corpus sentence returns `Ok` under the word table built from the corpus, with element `i` equal to `word_to_ix[sentence[i]]`; the word indices decode back to the sentence; each character index is the character's entry, at least 1 and below the table size |

## Left out

- `LSTMTagger` (augment.py:59-103) is left out. Embeddings, the two LSTMs, the linear
  layer and `log_softmax` are floating-point tensor numerics inside library modules. The
  character-level hidden state that carries over from word to word belongs to that
  numeric code too.
- The training loop (augment.py:107-137) is left out. Gradient zeroing, the NLL loss,
  back-propagation and the SGD step are library autograd calls on floating-point values.
  Only its input preparation at augment.py:125-126 is modelled, as `PrepareInputs`.
- Console output (augment.py:44-45, 137, 149) is left out. The insertion order of the
  printed dictionaries is modelled as `Order`.
- `torch.LongTensor` and `autograd.Variable` (augment.py:16-17, 24) are modelled as the
  identity on the integer sequences they wrap. The second loop of
  `prepare_word_sequence` copies each index vector unchanged.
- The hardcoded corpus, `tag_to_ix` and the hyperparameters (augment.py:28-31, 46,
  50-53) are literal data with no behaviour. The model takes any corpus as input. The
  tag encoding at augment.py:127 is `PrepareSentenceSequence` applied to the tag table.
- `augment.py` does not state its Python version. The model assumes Python 3, where
  iterating a `str` yields one code point at a time. Under Python 2, a `str` is a byte
  string and is iterated byte by byte; that case is not modelled.
- A character is a Dafny `char`, which is a Unicode scalar value. A Python 3 code point
  can also be a lone surrogate, which a Dafny string cannot hold, so such strings are
  not modelled.
- `Order`, the insertion order of the printed dictionaries, is guaranteed from Python
  3.7 on. The indices themselves, and every other property here, do not depend on it.
