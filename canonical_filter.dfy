/**
 * `filter_sessions` of app.py: the dashboard drops every session whose `Time` equals
 * the preset length of 60 minutes, keeping the rest in their original order, and uses
 * the full frame and the reduced frame side by side.
 *
 * A frame is the table read back from the CSV file, one `SessionRow` per data row,
 * after `preprocess_data` has parsed `Created At` into an instant. The selection
 * `df[df['Time'] != 60]` is modelled as pandas evaluates it: a boolean column, then
 * the rows whose entry is true.
 */
module CanonicalFilter {

  /** The preset session length, in minutes, whose sessions the filter drops. */
  const CanonicalMinutes: int := 60

  datatype SessionRow = SessionRow(createdAt: int, time: int, elapsed: int, goal: string, ended: bool, work: string)

  type Frame = seq<SessionRow>

  predicate IsCanonicalLength(r: SessionRow) {
    r.time == CanonicalMinutes
  }

  /** `df['Time'] != 60`: one boolean per row. */
  function NotCanonicalMask(df: Frame): (m: seq<bool>)
    ensures |m| == |df|
  {
    seq(|df|, i requires 0 <= i < |df| => !IsCanonicalLength(df[i]))
  }

  /** Boolean indexing `df[mask]`: the rows whose mask entry is true, in their order. */
  function Select<T>(df: seq<T>, mask: seq<bool>): (r: seq<T>)
    requires |mask| == |df|
    ensures |r| <= |df|
  {
    if df == [] then [] else (if mask[0] then [df[0]] else []) + Select(df[1..], mask[1..])
  }

  /** `filter_sessions(df)`. */
  function FilterSessions(df: Frame): (r: Frame)
    ensures |r| <= |df|
  {
    Select(df, NotCanonicalMask(df))
  }

  /** The number of canonical-length rows of `df`. */
  function CountCanonical(df: Frame): (n: nat)
    ensures n <= |df|
  {
    if df == [] then 0 else (if IsCanonicalLength(df[0]) then 1 else 0) + CountCanonical(df[1..])
  }

  /** `a` occurs in `b` in order, possibly with other elements in between. */
  predicate IsSubsequence<T(==)>(a: seq<T>, b: seq<T>)
    decreases |b|
  {
    if a == [] then true
    else if b == [] then false
    else if a[0] == b[0] then IsSubsequence(a[1..], b[1..])
    else IsSubsequence(a, b[1..])
  }

  /** The filter, one row at a time from the front. */
  lemma FilterCons(df: Frame)
    requires df != []
    ensures FilterSessions(df) ==
      (if IsCanonicalLength(df[0]) then [] else [df[0]]) + FilterSessions(df[1..])
  {
    assert NotCanonicalMask(df)[1..] == NotCanonicalMask(df[1..]);
  }

  /** Soundness: no returned row has `Time == 60`. */
  lemma {:induction false} FilterSound(df: Frame)
    ensures forall i :: 0 <= i < |FilterSessions(df)| ==> !IsCanonicalLength(FilterSessions(df)[i])
    decreases |df|
  {
    if df != [] {
      FilterCons(df);
      FilterSound(df[1..]);
    }
  }

  /**
   * Exact contents: every row with `Time != 60` is kept as often as it occurs in the
   * input, and no row with `Time == 60` is kept.
   */
  lemma {:induction false} FilterCounts(df: Frame, x: SessionRow)
    ensures multiset(FilterSessions(df))[x] == if IsCanonicalLength(x) then 0 else multiset(df)[x]
    decreases |df|
  {
    if df != [] {
      FilterCons(df);
      FilterCounts(df[1..], x);
      assert df == [df[0]] + df[1..];
    }
  }

  /** Completeness: no row with `Time != 60` is lost. */
  lemma FilterComplete(df: Frame, i: nat)
    requires i < |df| && !IsCanonicalLength(df[i])
    ensures df[i] in FilterSessions(df)
  {
    FilterCounts(df, df[i]);
    assert df[i] in multiset(df);
  }

  /** A subsequence of the tail of `b` is a subsequence of `b`. */
  lemma {:induction false} SubsequenceOfTail<T>(a: seq<T>, b: seq<T>)
    requires b != [] && IsSubsequence(a, b[1..])
    ensures IsSubsequence(a, b)
    decreases |b|, 0
  {
    if a != [] && a[0] == b[0] {
      SubsequenceDropHead(a, b[1..]);
    }
  }

  /** Dropping the first element of a subsequence keeps it a subsequence. */
  lemma {:induction false} SubsequenceDropHead<T>(a: seq<T>, b: seq<T>)
    requires a != [] && IsSubsequence(a, b)
    ensures IsSubsequence(a[1..], b)
    decreases |b|, 1
  {
    if a[0] == b[0] {
      SubsequenceOfTail(a[1..], b);
    } else {
      SubsequenceDropHead(a, b[1..]);
      SubsequenceOfTail(a[1..], b);
    }
  }

  /** Order: the result is a subsequence of the input, rows in their original order. */
  lemma {:induction false} FilterIsSubsequence(df: Frame)
    ensures IsSubsequence(FilterSessions(df), df)
    decreases |df|
  {
    if df != [] {
      FilterCons(df);
      FilterIsSubsequence(df[1..]);
      if IsCanonicalLength(df[0]) {
        assert FilterSessions(df) == FilterSessions(df[1..]);
        SubsequenceOfTail(FilterSessions(df), df);
      } else {
        assert FilterSessions(df)[1..] == FilterSessions(df[1..]);
      }
    }
  }

  /** Length: exactly the canonical-length rows are dropped. */
  lemma {:induction false} FilterLength(df: Frame)
    ensures |FilterSessions(df)| == |df| - CountCanonical(df)
    decreases |df|
  {
    if df != [] {
      FilterCons(df);
      FilterLength(df[1..]);
    }
  }

  lemma {:induction false} NoCanonicalCount(df: Frame)
    ensures CountCanonical(df) == 0 <==> forall i :: 0 <= i < |df| ==> !IsCanonicalLength(df[i])
    decreases |df|
  {
    if df != [] {
      NoCanonicalCount(df[1..]);
      assert forall i :: 1 <= i < |df| ==> df[i] == df[1..][i - 1];
    }
  }

  /** The output is as long as the input exactly when no input row has `Time == 60`. */
  lemma FilterKeepsLength(df: Frame)
    ensures |FilterSessions(df)| <= |df|
    ensures |FilterSessions(df)| == |df| <==> forall i :: 0 <= i < |df| ==> !IsCanonicalLength(df[i])
  {
    FilterLength(df);
    NoCanonicalCount(df);
  }

  /** The filter returns its input unchanged exactly when no row has `Time == 60`. */
  lemma {:induction false} FilterIdentity(df: Frame)
    ensures FilterSessions(df) == df <==> forall i :: 0 <= i < |df| ==> !IsCanonicalLength(df[i])
    decreases |df|
  {
    FilterKeepsLength(df);
    if df != [] {
      FilterCons(df);
      FilterIdentity(df[1..]);
      assert forall i :: 1 <= i < |df| ==> df[i] == df[1..][i - 1];
      if FilterSessions(df) == df {
        assert !IsCanonicalLength(df[0]);
        assert FilterSessions(df[1..]) == df[1..];
      }
    }
  }

  /** Idempotence: filtering a filtered frame changes nothing. */
  lemma FilterIdempotent(df: Frame)
    ensures FilterSessions(FilterSessions(df)) == FilterSessions(df)
  {
    FilterSound(df);
    FilterIdentity(FilterSessions(df));
  }

  /** The filter distributes over concatenation of frames. */
  lemma {:induction false} FilterAppend(a: Frame, b: Frame)
    ensures FilterSessions(a + b) == FilterSessions(a) + FilterSessions(b)
    decreases |a|
  {
    if a == [] {
      assert a + b == b;
    } else {
      var head := if IsCanonicalLength(a[0]) then [] else [a[0]];
      FilterCons(a);
      FilterCons(a + b);
      assert (a + b)[0] == a[0] && (a + b)[1..] == a[1..] + b;
      assert FilterSessions(a + b) == head + FilterSessions(a[1..] + b);
      FilterAppend(a[1..], b);
      assert head + (FilterSessions(a[1..]) + FilterSessions(b)) == (head + FilterSessions(a[1..])) + FilterSessions(b);
    }
  }

  /** The two frames the dashboard route works with. */
  datatype Views = Views(full: Frame, filtered: Frame)

  /** Lines 24-26 of the route: the full frame is kept next to the filtered one. */
  function Index(df: Frame): (v: Views)
    ensures v.full == df
    ensures |v.filtered| <= |v.full|
  {
    Views(df, FilterSessions(df))
  }

  /**
   * The route's full frame is its input, untouched, and the filtered frame is an
   * order-preserving subsequence of it without canonical-length rows.
   */
  lemma IndexViews(df: Frame)
    ensures Index(df).full == df
    ensures IsSubsequence(Index(df).filtered, Index(df).full)
    ensures forall i :: 0 <= i < |Index(df).filtered| ==> !IsCanonicalLength(Index(df).filtered[i])
  {
    FilterIsSubsequence(df);
    FilterSound(df);
  }
}
