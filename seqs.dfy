/**
 * Duplicate-free sequences and `Array.from(new Set(xs))`: a left fold that
 * appends each element unless it is already there, so the first occurrence
 * of every element is kept and the relative order of first occurrences is
 * preserved.
 */
module Seqs {
  predicate NoDup(xs: seq<string>) {
    forall i, j :: 0 <= i < j < |xs| ==> xs[i] != xs[j]
  }

  /** Append `x` to `acc` unless it is already present. */
  function AddNew(acc: seq<string>, x: string): (r: seq<string>) {
    if x in acc then acc else acc + [x]
  }

  /** Inserting every element of `xs`, in order, into an insertion-ordered set holding `acc`. */
  function DedupInto(acc: seq<string>, xs: seq<string>): (r: seq<string>)
    ensures acc <= r
    ensures NoDup(acc) ==> NoDup(r)
    ensures forall x :: x in r <==> x in acc || x in xs
    decreases |xs|
  {
    if xs == [] then acc
    else
      var init := DedupInto(acc, xs[..|xs| - 1]);
      assert xs == xs[..|xs| - 1] + [xs[|xs| - 1]];
      AddNew(init, xs[|xs| - 1])
  }

  /** `Array.from(new Set(xs))`. */
  function Dedup(xs: seq<string>): (r: seq<string>) {
    DedupInto([], xs)
  }

  /** The set built from `xs` has no duplicate, holds exactly the elements of `xs`, and extends the set built from any prefix of `xs`. */
  lemma DedupProperties(xs: seq<string>, ys: seq<string>)
    ensures NoDup(Dedup(xs))
    ensures forall x :: x in Dedup(xs) <==> x in xs
    ensures Dedup(xs) <= Dedup(xs + ys)
  {
    DedupIntoAppend([], xs, ys);
  }

  lemma {:induction false} DedupIntoAppend(acc: seq<string>, xs: seq<string>, ys: seq<string>)
    ensures DedupInto(acc, xs + ys) == DedupInto(DedupInto(acc, xs), ys)
    decreases |ys|
  {
    if ys == [] {
      assert xs + ys == xs;
    } else {
      var n := |ys| - 1;
      assert (xs + ys)[..|xs + ys| - 1] == xs + ys[..n];
      assert (xs + ys)[|xs + ys| - 1] == ys[n];
      DedupIntoAppend(acc, xs, ys[..n]);
    }
  }

  /** Inserting elements that are all new, and distinct, appends them unchanged. */
  lemma {:induction false} DedupIntoFresh(acc: seq<string>, xs: seq<string>)
    requires NoDup(acc + xs)
    ensures DedupInto(acc, xs) == acc + xs
    decreases |xs|
  {
    if xs != [] {
      var n := |xs| - 1;
      assert acc + xs == (acc + xs[..n]) + [xs[n]];
      assert NoDup(acc + xs[..n]) by {
        forall i, j | 0 <= i < j < |acc + xs[..n]| ensures (acc + xs[..n])[i] != (acc + xs[..n])[j] {
          assert (acc + xs[..n])[i] == (acc + xs)[i] && (acc + xs[..n])[j] == (acc + xs)[j];
        }
      }
      DedupIntoFresh(acc, xs[..n]);
      assert xs[n] == (acc + xs)[|acc| + n];
      forall k | 0 <= k < |acc + xs[..n]| ensures (acc + xs[..n])[k] != xs[n] {
        assert (acc + xs[..n])[k] == (acc + xs)[k];
      }
    }
  }

  /** A duplicate-free sequence is its own set. */
  lemma DedupOfNoDup(xs: seq<string>)
    requires NoDup(xs)
    ensures Dedup(xs) == xs
  {
    DedupIntoFresh([], xs);
  }

  /** Deduplicating twice changes nothing: `Dedup(Dedup(a) + b) == Dedup(a + b)`. */
  lemma DedupAbsorbs(a: seq<string>, b: seq<string>)
    ensures Dedup(Dedup(a) + b) == Dedup(a + b)
  {
    DedupIntoAppend([], Dedup(a), b);
    DedupOfNoDup(Dedup(a));
    DedupIntoAppend([], a, b);
  }

  /** Inserting elements that are all present already changes nothing. */
  lemma {:induction false} DedupIntoPresent(acc: seq<string>, xs: seq<string>)
    requires forall x :: x in xs ==> x in acc
    ensures DedupInto(acc, xs) == acc
    decreases |xs|
  {
    if xs != [] {
      var n := |xs| - 1;
      assert xs[n] in xs;
      forall x | x in xs[..n] ensures x in acc {
        assert x in xs;
      }
      DedupIntoPresent(acc, xs[..n]);
    }
  }

  /** Inserting the same elements twice is inserting them once. */
  lemma DedupIntoTwice(acc: seq<string>, xs: seq<string>)
    ensures DedupInto(DedupInto(acc, xs), xs) == DedupInto(acc, xs)
  {
    DedupIntoPresent(DedupInto(acc, xs), xs);
  }

  /** Inserting one more element is `AddNew`. */
  lemma DedupIntoSnoc(acc: seq<string>, xs: seq<string>, x: string)
    ensures DedupInto(acc, xs + [x]) == AddNew(DedupInto(acc, xs), x)
  {
    assert (xs + [x])[..|xs|] == xs;
  }
}
