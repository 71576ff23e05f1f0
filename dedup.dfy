/**
 * Step 1 of the cleaner, `df.drop_duplicates()`: a row equal in every
 * column to an earlier row is removed; the first occurrence is kept and the
 * order of the kept rows is the order of the table. Missing compares equal
 * to missing, as pandas does here.
 */
module Duplicates {
  import opened Seqs
  import opened Frames

  /**
   * Keeps the first occurrence of every element. The result has no
   * repetition, holds exactly the elements of `s`, is a subsequence of `s`,
   * and lists its elements in the order of their first occurrence in `s`.
   */
  function Dedup<T(==,!new)>(s: seq<T>): (r: seq<T>)
    ensures |r| <= |s|
    ensures Distinct(r)
    ensures forall x :: x in r <==> x in s
    ensures Subseq(r, s)
    ensures forall i, j :: 0 <= i < j < |r| ==> IndexOf(s, r[i]) < IndexOf(s, r[j])
  {
    if s == [] then []
    else
      var init, last := s[..|s| - 1], s[|s| - 1];
      assert s == init + [last];
      var d := Dedup(init);
      FirstOccurrencesKept(init, last, d);
      if last in init then d
      else
        assert (d + [last])[..|d|] == d;
        IndexOfUnique(s, last, |s| - 1);
        d + [last]
  }

  /** Elements already in `init` keep their first position once `last` is appended. */
  lemma FirstOccurrencesKept<T(!new)>(init: seq<T>, last: T, d: seq<T>)
    requires forall x :: x in d ==> x in init
    ensures forall x :: x in d ==> IndexOf(init + [last], x) == IndexOf(init, x)
  {
    forall x | x in d
      ensures IndexOf(init + [last], x) == IndexOf(init, x)
    {
      IndexOfAppend(init, last, x);
    }
  }

  /** A sequence without repetitions is its own deduplication. */
  lemma {:induction false} DedupOfDistinct<T(!new)>(s: seq<T>)
    requires Distinct(s)
    ensures Dedup(s) == s
  {
    if s != [] {
      var init, last := s[..|s| - 1], s[|s| - 1];
      assert s == init + [last];
      assert Distinct(init);
      assert last !in init by {
        assert forall k :: 0 <= k < |init| ==> init[k] == s[k] && s[k] != s[|s| - 1];
      }
      DedupOfDistinct(init);
    }
  }

  /** Deduplicating twice is the same as deduplicating once. */
  lemma DedupIdempotent<T(!new)>(s: seq<T>)
    ensures Dedup(Dedup(s)) == Dedup(s)
  {
    DedupOfDistinct(Dedup(s));
  }

  /**
   * `df.drop_duplicates()`: the rows of `t` without repeated rows, each kept
   * at its first occurrence and in the table's order; columns unchanged.
   */
  function DropDuplicates(t: Table): (r: Table)
    requires WellFormed(t)
    ensures WellFormed(r) && r.columns == t.columns
    ensures |r.rows| <= |t.rows| && Distinct(r.rows)
    ensures forall x :: x in r.rows <==> x in t.rows
    ensures Subseq(r.rows, t.rows)
    ensures forall i, j :: 0 <= i < j < |r.rows| ==> IndexOf(t.rows, r.rows[i]) < IndexOf(t.rows, r.rows[j])
  {
    Table(t.columns, Dedup(t.rows))
  }

  /** Dropping duplicates from a table that has none left changes nothing. */
  lemma DropDuplicatesIdempotent(t: Table)
    requires WellFormed(t)
    ensures DropDuplicates(DropDuplicates(t)) == DropDuplicates(t)
  {
    DedupIdempotent(t.rows);
  }
}
