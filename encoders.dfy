/**
 * The two sequence encoders (augment.py:14-26). Each looks every token up in an
 * index table; a token that is not a key raises `KeyError` in the script, which
 * is modelled here as a `KeyError` result carrying the first missing key in
 * scan order. The `LongTensor`/`Variable` wrapping is the identity on the
 * integer indices it holds.
 */
module Encoders {
  import opened Tables
  import opened Characters
  import opened Sequences

  datatype Result<T> = Ok(value: T) | KeyError(key: string)

  /** Every key of `ks` is in `t`. */
  ghost predicate AllKnown(ks: seq<string>, t: Table) {
    forall i :: 0 <= i < |ks| ==> ks[i] in t
  }

  /** `k` is the first element of `ks`, in scan order, that `t` does not hold. */
  ghost predicate FirstMissing(ks: seq<string>, t: Table, k: string) {
    exists n :: 0 <= n < |ks| && ks[n] == k && k !in t && AllKnown(ks[..n], t)
  }

  /** `[to_ix[w] for w in seq]`: the index of every token, or the first missing token. */
  function PrepareSentenceSequence(s: seq<string>, toIx: Table): (r: Result<seq<nat>>)
    ensures r.Ok? <==> AllKnown(s, toIx)
    ensures r.Ok? ==> |r.value| == |s| && forall i :: 0 <= i < |s| ==> r.value[i] == toIx[s[i]]
    ensures r.KeyError? ==> FirstMissing(s, toIx, r.key)
    decreases |s|
  {
    if s == [] then Ok([])
    else if s[0] !in toIx then
      assert AllKnown(s[..0], toIx);
      KeyError(s[0])
    else
      match PrepareSentenceSequence(s[1..], toIx)
      case Ok(rest) => Ok([toIx[s[0]]] + rest)
      case KeyError(k) =>
        assert s == [s[0]] + s[1..];
        FirstMissingAfter([s[0]], s[1..], toIx, k);
        KeyError(k)
  }

  /** Missing from a prefix means missing, at the same place, from the whole. */
  lemma FirstMissingPrefix(a: seq<string>, b: seq<string>, t: Table, k: string)
    requires FirstMissing(a, t, k)
    ensures FirstMissing(a + b, t, k)
  {
    var n :| 0 <= n < |a| && a[n] == k && k !in t && AllKnown(a[..n], t);
    assert (a + b)[..n] == a[..n];
    assert (a + b)[n] == k;
  }

  /** After a fully known prefix, the first missing key of the rest is the first missing key of all. */
  lemma FirstMissingAfter(a: seq<string>, b: seq<string>, t: Table, k: string)
    requires AllKnown(a, t) && FirstMissing(b, t, k)
    ensures FirstMissing(a + b, t, k)
  {
    var n :| 0 <= n < |b| && b[n] == k && k !in t && AllKnown(b[..n], t);
    assert (a + b)[..|a| + n] == a + b[..n];
    assert (a + b)[|a| + n] == k;
  }

  /** Words `0 .. w` are fully known once word `w` is. */
  lemma KnownThroughWord(words: seq<string>, w: nat, t: Table)
    requires w < |words|
    requires AllKnown(CharsOf(words[..w]), t) && AllKnown(Explode(words[w]), t)
    ensures AllKnown(CharsOf(words[..w + 1]), t)
  {
    TakeSnoc(words, w);
    CharsOfSnoc(words[..w], words[w]);
  }

  /** The first missing character of word `w`, after fully known words, is the first missing of all. */
  lemma MissingInWord(words: seq<string>, w: nat, t: Table, k: string)
    requires w < |words|
    requires AllKnown(CharsOf(words[..w]), t) && FirstMissing(Explode(words[w]), t, k)
    ensures FirstMissing(CharsOf(words), t, k)
  {
    TakeSnoc(words, w);
    CharsOfSnoc(words[..w], words[w]);
    FirstMissingAfter(CharsOf(words[..w]), Explode(words[w]), t, k);
    assert words == words[..w + 1] + words[w + 1..];
    CharsOfAppend(words[..w + 1], words[w + 1..]);
    FirstMissingPrefix(CharsOf(words[..w + 1]), CharsOf(words[w + 1..]), t, k);
  }

  /**
   * `prepare_word_sequence`: one vector of character indices per word, in
   * word order; the first character (in reading order) that is not a key of
   * `toIx` raises `KeyError`. The comprehension of augment.py:21 is the one
   * of augment.py:15 applied to the word's characters, so each word is encoded
   * with `PrepareSentenceSequence(Explode(word), toIx)`.
   */
  method PrepareWordSequence(words: seq<string>, toIx: Table) returns (r: Result<seq<seq<nat>>>)
    ensures r.Ok? <==> forall i, j :: 0 <= i < |words| && 0 <= j < |words[i]| ==> [words[i][j]] in toIx
    ensures r.Ok? ==> |r.value| == |words|
    ensures r.Ok? ==> forall i :: 0 <= i < |words| ==>
              |r.value[i]| == |words[i]| &&
              forall j :: 0 <= j < |words[i]| ==> r.value[i][j] == toIx[[words[i][j]]]
    ensures r.KeyError? ==> FirstMissing(CharsOf(words), toIx, r.key)
  {
    var idxs: seq<seq<nat>> := [];
    for w := 0 to |words|
      invariant |idxs| == w
      invariant forall i, j :: 0 <= i < w && 0 <= j < |words[i]| ==> [words[i][j]] in toIx
      invariant forall i :: 0 <= i < w ==>
                  |idxs[i]| == |words[i]| &&
                  forall j :: 0 <= j < |words[i]| ==> idxs[i][j] == toIx[[words[i][j]]]
      invariant AllKnown(CharsOf(words[..w]), toIx)
    {
      var v := PrepareSentenceSequence(Explode(words[w]), toIx);
      if v.KeyError? {
        MissingInWord(words, w, toIx, v.key);
        return KeyError(v.key);
      }
      KnownThroughWord(words, w, toIx);
      idxs := idxs + [v.value];
    }
    var tensor: seq<seq<nat>> := [];
    for i := 0 to |idxs|
      invariant tensor == idxs[..i]
    {
      tensor := tensor + [idxs[i]];
    }
    assert idxs[..|idxs|] == idxs;
    return Ok(tensor);
  }

  /**
   * Reverse lookup: with a listed table, the insertion-ordered key list turns
   * an encoded sentence back into the sentence, and two positions get the same
   * index exactly when they hold the same token.
   */
  lemma EncodeDecode(s: seq<string>, t: Table, o: seq<string>)
    requires Listed(t, o) && AllKnown(s, t)
    ensures PrepareSentenceSequence(s, t).Ok?
    ensures forall i :: 0 <= i < |s| ==>
              PrepareSentenceSequence(s, t).value[i] < |o| && o[PrepareSentenceSequence(s, t).value[i]] == s[i]
    ensures forall i, j :: 0 <= i < |s| && 0 <= j < |s| ==>
              (PrepareSentenceSequence(s, t).value[i] == PrepareSentenceSequence(s, t).value[j] <==> s[i] == s[j])
  {
  }
}
