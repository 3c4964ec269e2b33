/**
 * Characters as the script sees them. Iterating a Python `str` (augment.py:21,
 * augment.py:37, augment.py:38) yields strings of length one, so a character is
 * modelled as the one-character string `[c]`, and `list(word)` as the sequence
 * of those strings.
 */
module Characters {
  import opened Sequences

  /** `list(word)`: the word split into one-character strings, in order. */
  function Explode(w: string): (r: seq<string>)
    ensures |r| == |w|
    ensures forall j :: 0 <= j < |w| ==> r[j] == [w[j]]
    decreases |w|
  {
    if w == [] then [] else Explode(w[..|w| - 1]) + [[w[|w| - 1]]]
  }

  /** Reading one more character of a word. */
  lemma ExplodeSnoc(w: string, c: nat)
    requires c < |w|
    ensures Explode(w[..c + 1]) == Explode(w[..c]) + [[w[c]]]
  {
  }

  /** `''.join(cs)`: the strings of `cs` concatenated in order. */
  function Join(cs: seq<string>): string
    decreases |cs|
  {
    if cs == [] then [] else Join(cs[..|cs| - 1]) + cs[|cs| - 1]
  }

  /** Joining the pieces of `list(word)` gives the word back. */
  lemma {:induction false} JoinExplode(w: string)
    ensures Join(Explode(w)) == w
    decreases |w|
  {
    if w != [] {
      var e := Explode(w);
      assert e[..|e| - 1] == Explode(w[..|w| - 1]);
      JoinExplode(w[..|w| - 1]);
      assert w == w[..|w| - 1] + [w[|w| - 1]];
    }
  }

  /**
   * Every character of every word of `ws`, in reading order: the sequence the
   * builder's two nested loops (augment.py:36 and augment.py:38) walk through.
   */
  function CharsOf(ws: seq<string>): seq<string>
    decreases |ws|
  {
    if ws == [] then [] else CharsOf(ws[..|ws| - 1]) + Explode(ws[|ws| - 1])
  }

  /** Reading the characters of one more word. */
  lemma CharsOfSnoc(ws: seq<string>, w: string)
    ensures CharsOf(ws + [w]) == CharsOf(ws) + Explode(w)
  {
  }

  /** Reading the characters of two word lists one after the other. */
  lemma {:induction false} CharsOfAppend(a: seq<string>, b: seq<string>)
    ensures CharsOf(a + b) == CharsOf(a) + CharsOf(b)
    decreases |b|
  {
    if b == [] {
      assert a + b == a;
    } else {
      var b' := b[..|b| - 1];
      assert (a + b)[..|a + b| - 1] == a + b';
      CharsOfAppend(a, b');
    }
  }

  /** Character `j` of word `i` is among the characters read. */
  lemma {:induction false} CharsOfContains(ws: seq<string>, i: nat, j: nat)
    requires i < |ws| && j < |ws[i]|
    ensures [ws[i][j]] in CharsOf(ws)
    decreases |ws|
  {
    var e := Explode(ws[|ws| - 1]);
    if i == |ws| - 1 {
      assert e[j] == [ws[i][j]];
    } else {
      CharsOfContains(ws[..|ws| - 1], i, j);
    }
  }

  /** Every character read is a one-character string. */
  lemma {:induction false} CharsOfAreSingle(ws: seq<string>)
    ensures forall c :: c in CharsOf(ws) ==> |c| == 1
    decreases |ws|
  {
    if ws != [] {
      CharsOfAreSingle(ws[..|ws| - 1]);
    }
  }
}
