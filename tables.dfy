/**
 * The index tables `word_to_ix` and `char_to_ix` (augment.py:32-33) and the one
 * operation the builder applies to them (augment.py:39-42): a key not yet in
 * the table receives the next dense index, `len(table)`; a key already in it
 * changes nothing.
 *
 * A table is a map from key to index. Python dictionaries from version 3.7 on
 * also remember the order in which keys were inserted; that order is the
 * sequence `Order` below, and `Listed(t, o)` says that `o` lists the keys of
 * `t` by index. The indices themselves do not depend on that order.
 */
module Tables {

  /** A dictionary from token string to index. */
  type Table = map<string, nat>

  /** `if k not in t: t[k] = len(t)` */
  function Insert(t: Table, k: string): (r: Table)
    ensures k in r
    ensures forall x :: x in t ==> x in r && r[x] == t[x]
    ensures forall x :: x in r ==> x in t || x == k
    ensures k in t ==> r == t
    ensures k !in t ==> r[k] == |t| && |r| == |t| + 1
  {
    if k in t then t else t[k := |t|]
  }

  /** The table after inserting every key of `ks` in order, starting from `t`. */
  function Index(t: Table, ks: seq<string>): Table
    decreases |ks|
  {
    if ks == [] then t else Insert(Index(t, ks[..|ks| - 1]), ks[|ks| - 1])
  }

  /** Scanning one more key is one more insertion. */
  lemma IndexSnoc(t: Table, ks: seq<string>, k: string)
    ensures Index(t, ks + [k]) == Insert(Index(t, ks), k)
  {
  }

  /** The insertion order of `Index(t, ks)`, when `o` is the insertion order of `t`. */
  function Order(o: seq<string>, ks: seq<string>): seq<string>
    decreases |ks|
  {
    if ks == [] then o
    else
      var p := Order(o, ks[..|ks| - 1]);
      if ks[|ks| - 1] in p then p else p + [ks[|ks| - 1]]
  }

  /** `o` lists the keys of `t`: key `o[i]` has index `i`, and every key is listed. */
  ghost predicate Listed(t: Table, o: seq<string>) {
    && |o| == |t|
    && (forall i :: 0 <= i < |o| ==> o[i] in t && t[o[i]] == i)
    && (forall k :: k in t ==> t[k] < |o| && o[t[k]] == k)
  }

  /** Indices are pairwise distinct and are exactly `0 .. |t| - 1`. */
  ghost predicate Dense(t: Table) {
    && (forall a, b :: a in t && b in t && a != b ==> t[a] != t[b])
    && (forall i: nat :: i < |t| <==> i in t.Values)
  }

  /** A single insertion keeps the listing up to date. */
  lemma InsertListed(t: Table, o: seq<string>, k: string)
    requires Listed(t, o)
    ensures Listed(Insert(t, k), if k in o then o else o + [k])
  {
  }

  /** Building from a listed table yields a table listed by `Order`. */
  lemma {:induction false} IndexListed(t: Table, o: seq<string>, ks: seq<string>)
    requires Listed(t, o)
    ensures Listed(Index(t, ks), Order(o, ks))
    decreases |ks|
  {
    if ks != [] {
      IndexListed(t, o, ks[..|ks| - 1]);
      InsertListed(Index(t, ks[..|ks| - 1]), Order(o, ks[..|ks| - 1]), ks[|ks| - 1]);
    }
  }

  /** A listed table is dense: distinct keys have distinct indices, and the indices are `0 .. |t| - 1`. */
  lemma ListedIsDense(t: Table, o: seq<string>)
    requires Listed(t, o)
    ensures Dense(t)
  {
    forall i: nat | i < |t| ensures i in t.Values {
      assert t[o[i]] == i;
    }
  }

  /** Building from a dense, listed table (the empty one, or `{'PAD': 0}`) gives a dense table. */
  lemma IndexDense(t: Table, o: seq<string>, ks: seq<string>)
    requires Listed(t, o)
    ensures Dense(Index(t, ks))
  {
    IndexListed(t, o, ks);
    ListedIsDense(Index(t, ks), Order(o, ks));
  }

  /** The keys afterwards are the keys before plus every key scanned. */
  lemma {:induction false} IndexKeys(t: Table, ks: seq<string>)
    ensures forall k :: k in Index(t, ks) <==> k in t || k in ks
    decreases |ks|
  {
    if ks != [] {
      var ks' := ks[..|ks| - 1];
      IndexKeys(t, ks');
      assert ks == ks' + [ks[|ks| - 1]];
    }
  }

  /** Entries already present keep their index, and the table never shrinks. */
  lemma {:induction false} IndexGrows(t: Table, ks: seq<string>)
    ensures forall k :: k in t ==> k in Index(t, ks) && Index(t, ks)[k] == t[k]
    ensures |Index(t, ks)| >= |t|
    decreases |ks|
  {
    if ks != [] {
      IndexGrows(t, ks[..|ks| - 1]);
    }
  }

  /** Scanning `a` and then `b` is scanning `a + b`. */
  lemma {:induction false} IndexAppend(t: Table, a: seq<string>, b: seq<string>)
    ensures Index(t, a + b) == Index(Index(t, a), b)
    decreases |b|
  {
    if b == [] {
      assert a + b == a;
    } else {
      var b' := b[..|b| - 1];
      assert (a + b)[..|a + b| - 1] == a + b';
      IndexAppend(t, a, b');
    }
  }

  /** The table built from a prefix of the scan is contained in the final table. */
  lemma IndexPrefix(t: Table, ks: seq<string>, n: nat)
    requires n <= |ks|
    ensures forall k :: k in Index(t, ks[..n]) ==> k in Index(t, ks) && Index(t, ks)[k] == Index(t, ks[..n])[k]
  {
    assert ks == ks[..n] + ks[n..];
    IndexAppend(t, ks[..n], ks[n..]);
    IndexGrows(Index(t, ks[..n]), ks[n..]);
  }

  /** A key seen again at position `j` leaves the table exactly as it was. */
  lemma RepeatChangesNothing(t: Table, ks: seq<string>, j: nat)
    requires j < |ks| && ks[j] in ks[..j]
    ensures Index(t, ks[..j + 1]) == Index(t, ks[..j])
  {
    assert ks[..j + 1][..j] == ks[..j];
    IndexKeys(t, ks[..j]);
  }

  /**
   * First-occurrence order: a key first seen at position `j`, and not in the
   * initial table, gets a strictly larger index than every key seen before it
   * and every key of the initial table.
   */
  lemma FirstOccurrenceOrder(t: Table, o: seq<string>, ks: seq<string>, j: nat)
    requires Listed(t, o)
    requires j < |ks| && ks[j] !in ks[..j] && ks[j] !in t
    ensures ks[j] in Index(t, ks)
    ensures forall k :: (k in t || k in ks[..j]) ==>
              k in Index(t, ks) && Index(t, ks)[k] < Index(t, ks)[ks[j]]
  {
    var p := Index(t, ks[..j]);
    assert ks[..j + 1][..j] == ks[..j];
    IndexKeys(t, ks[..j]);
    IndexListed(t, o, ks[..j]);
    assert Index(t, ks[..j + 1]) == p[ks[j] := |p|];
    IndexPrefix(t, ks, j + 1);
  }
}
