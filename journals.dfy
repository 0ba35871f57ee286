/**
 * The ordering of a goal's journal, the entries of a period and the
 * progress they yield (`sortJournals` and the body of `applyTimeframeReset`
 * for a given period start).
 */
module Journals {
  import opened Wrappers

  /** One check-in of a goal's journal; `createdAt` is its time value in milliseconds. */
  datatype JournalEntry = JournalEntry(id: int, note: string, progress: int, createdAt: int)

  /** The journal when it is an array (`Some`), and the empty list otherwise. */
  function Entries(journal: Option<seq<JournalEntry>>): seq<JournalEntry> {
    if journal.Some? then journal.value else []
  }

  predicate Sorted(s: seq<JournalEntry>) {
    forall i, j :: 0 <= i < j < |s| ==> s[i].createdAt <= s[j].createdAt
  }

  // ---------------------------------------------------------------------
  // Sorting by creation time
  // ---------------------------------------------------------------------

  /** Places `x` after the last entry of `t` that is not later than it. */
  function Insert(t: seq<JournalEntry>, x: JournalEntry): (r: seq<JournalEntry>)
    ensures |r| == |t| + 1
  {
    if t == [] then [x]
    else if t[|t| - 1].createdAt <= x.createdAt then t + [x]
    else Insert(t[..|t| - 1], x) + [t[|t| - 1]]
  }

  /**
   * The journal in ascending `createdAt` order, entries with equal times in
   * their original order: the order a stable `Array.prototype.sort` with
   * the comparator `a.created_at - b.created_at` produces.
   */
  function SortByCreated(s: seq<JournalEntry>): (r: seq<JournalEntry>)
    ensures |r| == |s|
  {
    if s == [] then [] else Insert(SortByCreated(s[..|s| - 1]), s[|s| - 1])
  }

  /** The position at which `Insert` places `x`. */
  function InsertPosition(t: seq<JournalEntry>, x: JournalEntry): (j: nat)
    ensures j <= |t|
    ensures forall k :: j <= k < |t| ==> t[k].createdAt > x.createdAt
    ensures j > 0 ==> t[j - 1].createdAt <= x.createdAt
  {
    if t == [] then 0
    else if t[|t| - 1].createdAt <= x.createdAt then |t|
    else InsertPosition(t[..|t| - 1], x)
  }

  /** Inserting at a position whose left neighbour is not later and whose right part is later. */
  lemma {:induction false} InsertAt(t: seq<JournalEntry>, x: JournalEntry, j: int)
    requires 0 <= j <= |t|
    requires forall k :: j <= k < |t| ==> t[k].createdAt > x.createdAt
    requires j > 0 ==> t[j - 1].createdAt <= x.createdAt
    ensures Insert(t, x) == t[..j] + [x] + t[j..]
  {
    if j < |t| {
      var init := t[..|t| - 1];
      InsertAt(init, x, j);
      assert init[..j] == t[..j];
      assert t[j..] == init[j..] + [t[|t| - 1]];
    } else {
      assert t[..j] == t;
    }
  }

  lemma {:induction false} InsertSorted(t: seq<JournalEntry>, x: JournalEntry)
    requires Sorted(t)
    ensures Sorted(Insert(t, x))
  {
    var j := InsertPosition(t, x);
    InsertAt(t, x, j);
    var r := t[..j] + [x] + t[j..];
    forall a, b | 0 <= a < b < |r|
      ensures r[a].createdAt <= r[b].createdAt
    {
      if a < j && b > j {
        assert r[a] == t[a] && r[b] == t[b - 1];
        assert t[a].createdAt <= t[j - 1].createdAt;
      }
    }
  }

  lemma {:induction false} InsertPermutes(t: seq<JournalEntry>, x: JournalEntry)
    ensures multiset(Insert(t, x)) == multiset(t) + multiset{x}
  {
    if t != [] && t[|t| - 1].createdAt > x.createdAt {
      var init, last := t[..|t| - 1], t[|t| - 1];
      InsertPermutes(init, x);
      assert t == init + [last];
    }
  }

  /** The sorted journal holds the same entries, each as often. */
  lemma {:induction false} SortPermutes(s: seq<JournalEntry>)
    ensures multiset(SortByCreated(s)) == multiset(s)
  {
    if s != [] {
      var init, x := s[..|s| - 1], s[|s| - 1];
      assert s == init + [x];
      SortPermutes(init);
      InsertPermutes(SortByCreated(init), x);
    }
  }

  /** The sorted journal is in ascending `createdAt` order. */
  lemma {:induction false} SortSorted(s: seq<JournalEntry>)
    ensures Sorted(SortByCreated(s))
  {
    if s != [] {
      SortSorted(s[..|s| - 1]);
      InsertSorted(SortByCreated(s[..|s| - 1]), s[|s| - 1]);
    }
  }

  /** The entries of `s` created at time `k`, in their order in `s`. */
  function CreatedAt(s: seq<JournalEntry>, k: int): seq<JournalEntry> {
    if s == [] then []
    else CreatedAt(s[..|s| - 1], k) + (if s[|s| - 1].createdAt == k then [s[|s| - 1]] else [])
  }

  lemma CreatedAtSnoc(t: seq<JournalEntry>, x: JournalEntry, k: int)
    ensures CreatedAt(t + [x], k) == CreatedAt(t, k) + (if x.createdAt == k then [x] else [])
  {
    assert (t + [x])[..|t|] == t;
  }

  lemma {:induction false} InsertKeepsTies(t: seq<JournalEntry>, x: JournalEntry, k: int)
    ensures CreatedAt(Insert(t, x), k) == CreatedAt(t, k) + (if x.createdAt == k then [x] else [])
  {
    if t == [] {
      CreatedAtSnoc([], x, k);
    } else if t[|t| - 1].createdAt <= x.createdAt {
      CreatedAtSnoc(t, x, k);
    } else {
      var init, last := t[..|t| - 1], t[|t| - 1];
      assert t == init + [last];
      InsertKeepsTies(init, x, k);
      TiesAfterLater(init, last, x, k);
    }
  }

  /** Appending a later `last` after inserting `x` keeps the ties of `x` after those of `last`'s prefix. */
  lemma TiesAfterLater(init: seq<JournalEntry>, last: JournalEntry, x: JournalEntry, k: int)
    requires last.createdAt > x.createdAt
    requires CreatedAt(Insert(init, x), k) == CreatedAt(init, k) + (if x.createdAt == k then [x] else [])
    ensures CreatedAt(Insert(init, x) + [last], k)
         == CreatedAt(init + [last], k) + (if x.createdAt == k then [x] else [])
  {
    CreatedAtSnoc(Insert(init, x), last, k);
    CreatedAtSnoc(init, last, k);
  }

  /** The sort is stable: entries with the same time keep their relative order. */
  lemma {:induction false} SortStable(s: seq<JournalEntry>, k: int)
    ensures CreatedAt(SortByCreated(s), k) == CreatedAt(s, k)
  {
    if s != [] {
      var init, x := s[..|s| - 1], s[|s| - 1];
      SortStable(init, k);
      InsertKeepsTies(SortByCreated(init), x, k);
      CreatedAtSnoc(init, x, k);
      assert s == init + [x];
    }
  }

  /**
   * One step of the insertion sort: the entry at `i` moves left past every
   * later entry of the sorted prefix `a[..i]`.
   */
  method InsertInPlace(a: array<JournalEntry>, i: int)
    requires 0 <= i < a.Length
    modifies a
    ensures a[..i + 1] == Insert(old(a[..i]), old(a[i]))
    ensures a[i + 1..] == old(a[i + 1..])
  {
    var x := a[i];
    ghost var t := a[..i];
    var j := i;
    while j > 0 && a[j - 1].createdAt > x.createdAt
      invariant 0 <= j <= i
      invariant forall k :: 0 <= k < j ==> a[k] == t[k]
      invariant forall k :: j < k <= i ==> a[k] == t[k - 1]
      invariant forall k :: j <= k < i ==> t[k].createdAt > x.createdAt
      invariant forall k :: i < k < a.Length ==> a[k] == old(a[k])
    {
      a[j] := a[j - 1];
      j := j - 1;
    }
    a[j] := x;
    ShiftedIsInsert(a[..], t, x, j);
  }

  /** The array contents the insertion step leaves: `t` with `x` placed at `j`. */
  lemma ShiftedIsInsert(s: seq<JournalEntry>, t: seq<JournalEntry>, x: JournalEntry, j: int)
    requires 0 <= j <= |t| < |s|
    requires forall k :: 0 <= k < j ==> s[k] == t[k]
    requires s[j] == x
    requires forall k :: j < k <= |t| ==> s[k] == t[k - 1]
    requires forall k :: j <= k < |t| ==> t[k].createdAt > x.createdAt
    requires j > 0 ==> t[j - 1].createdAt <= x.createdAt
    ensures s[..|t| + 1] == Insert(t, x)
  {
    InsertAt(t, x, j);
    assert s[..|t| + 1] == t[..j] + [x] + t[j..];
  }

  /**
   * `sortJournals`: copies the journal (an empty list when it is not an
   * array) into a fresh array and sorts the copy in place by insertion.
   */
  method SortJournals(journal: Option<seq<JournalEntry>>) returns (list: seq<JournalEntry>)
    ensures list == SortByCreated(Entries(journal))
  {
    var src := Entries(journal);
    var a := new JournalEntry[|src|](k requires 0 <= k < |src| => src[k]);
    var i := 0;
    while i < a.Length
      invariant 0 <= i <= a.Length == |src|
      invariant a[..i] == SortByCreated(src[..i])
      invariant a[i..] == src[i..]
    {
      InsertInPlace(a, i);
      assert src[..i + 1][..i] == src[..i];
      i := i + 1;
    }
    assert src[..|src|] == src;
    list := a[..];
  }
  // ---------------------------------------------------------------------
  // The entries of the current period and the latest of them
  // ---------------------------------------------------------------------

  /** The entries created at or after `start`, in their order. */
  function InPeriod(s: seq<JournalEntry>, start: int): (r: seq<JournalEntry>)
    ensures |r| <= |s|
  {
    if s == [] then []
    else InPeriod(s[..|s| - 1], start) + (if s[|s| - 1].createdAt >= start then [s[|s| - 1]] else [])
  }

  /** The filter keeps exactly the entries created at or after `start`. */
  lemma {:induction false} InPeriodMembers(s: seq<JournalEntry>, start: int)
    ensures forall e :: e in InPeriod(s, start) <==> e in s && e.createdAt >= start
  {
    if s != [] {
      InPeriodMembers(s[..|s| - 1], start);
      assert s == s[..|s| - 1] + [s[|s| - 1]];
    }
  }

  lemma {:induction false} InPeriodConcat(a: seq<JournalEntry>, b: seq<JournalEntry>, start: int)
    ensures InPeriod(a + b, start) == InPeriod(a, start) + InPeriod(b, start)
  {
    if b == [] {
      assert a + b == a;
    } else {
      var init := b[..|b| - 1];
      InPeriodConcat(a, init, start);
      assert (a + b)[..|a + b| - 1] == a + init;
    }
  }

  /** No entry of `s` is later than `x`. */
  predicate NoneLater(s: seq<JournalEntry>, x: JournalEntry) {
    forall k :: 0 <= k < |s| ==> s[k].createdAt <= x.createdAt
  }

  /** Every entry of `s` is later than `x`. */
  predicate AllLater(s: seq<JournalEntry>, x: JournalEntry) {
    forall k :: 0 <= k < |s| ==> s[k].createdAt > x.createdAt
  }

  /** Inserting between the entries not later than `x` and those later than it. */
  lemma InsertBetween(u: seq<JournalEntry>, w: seq<JournalEntry>, x: JournalEntry)
    requires NoneLater(u, x) && AllLater(w, x)
    ensures Insert(u + w, x) == u + [x] + w
  {
    var v := u + w;
    forall k | |u| <= k < |v|
      ensures v[k].createdAt > x.createdAt
    {
      assert v[k] == w[k - |u|];
    }
    if |u| > 0 {
      assert v[|u| - 1] == u[|u| - 1];
    }
    InsertAt(v, x, |u|);
    assert v[..|u|] == u && v[|u|..] == w;
  }

  /** In a sorted list, the entries before the insertion position of `x` are not later than it. */
  lemma BeforeInsertPosition(t: seq<JournalEntry>, x: JournalEntry)
    requires Sorted(t)
    ensures NoneLater(t[..InsertPosition(t, x)], x)
    ensures AllLater(t[InsertPosition(t, x)..], x)
  {
    var j := InsertPosition(t, x);
    forall k | 0 <= k < j
      ensures t[k].createdAt <= x.createdAt
    {
      assert t[k].createdAt <= t[j - 1].createdAt;
    }
  }

  lemma {:induction false} NoneLaterInPeriod(s: seq<JournalEntry>, x: JournalEntry, start: int)
    requires NoneLater(s, x)
    ensures NoneLater(InPeriod(s, start), x)
  {
    if s != [] {
      NoneLaterInPeriod(s[..|s| - 1], x, start);
    }
  }

  lemma {:induction false} AllLaterInPeriod(s: seq<JournalEntry>, x: JournalEntry, start: int)
    requires AllLater(s, x)
    ensures AllLater(InPeriod(s, start), x)
  {
    if s != [] {
      AllLaterInPeriod(s[..|s| - 1], x, start);
    }
  }

  lemma InPeriodSnoc(t: seq<JournalEntry>, x: JournalEntry, start: int)
    ensures InPeriod(t + [x], start) == InPeriod(t, start) + (if x.createdAt >= start then [x] else [])
  {
    assert (t + [x])[..|t|] == t;
  }

  lemma InPeriodAround(lo: seq<JournalEntry>, x: JournalEntry, hi: seq<JournalEntry>, start: int)
    ensures InPeriod(lo + [x] + hi, start)
      == InPeriod(lo, start) + (if x.createdAt >= start then [x] else []) + InPeriod(hi, start)
  {
    InPeriodConcat(lo + [x], hi, start);
    InPeriodSnoc(lo, x, start);
  }

  /** An entry before the period and none in it: the filter is empty. */
  lemma {:induction false} InPeriodEmpty(s: seq<JournalEntry>, start: int)
    requires forall e :: e in s ==> e.createdAt < start
    ensures InPeriod(s, start) == []
  {
    if s != [] {
      assert s[|s| - 1] in s;
      assert forall e :: e in s[..|s| - 1] ==> e in s;
      InPeriodEmpty(s[..|s| - 1], start);
    }
  }

  /** Filtering the three parts of an insertion: the prefix, `x`, and the suffix. */
  lemma InPeriodInsertShape(t: seq<JournalEntry>, x: JournalEntry, start: int)
    ensures var j := InsertPosition(t, x);
      && InPeriod(Insert(t, x), start)
        == InPeriod(t[..j], start) + (if x.createdAt >= start then [x] else []) + InPeriod(t[j..], start)
      && InPeriod(t, start) == InPeriod(t[..j], start) + InPeriod(t[j..], start)
  {
    var j := InsertPosition(t, x);
    InsertAt(t, x, j);
    InPeriodAround(t[..j], x, t[j..], start);
    assert t == t[..j] + t[j..];
    InPeriodConcat(t[..j], t[j..], start);
  }

  /** Filtering a sorted list and inserting commute. */
  lemma InPeriodInsert(t: seq<JournalEntry>, x: JournalEntry, start: int)
    requires Sorted(t)
    ensures InPeriod(Insert(t, x), start)
      == if x.createdAt >= start then Insert(InPeriod(t, start), x) else InPeriod(t, start)
  {
    InPeriodInsertShape(t, x, start);
    if x.createdAt >= start {
      InsertIntoPeriod(t, x, start);
    }
  }

  lemma InsertIntoPeriod(t: seq<JournalEntry>, x: JournalEntry, start: int)
    requires Sorted(t)
    ensures var j := InsertPosition(t, x);
      Insert(InPeriod(t, start), x) == InPeriod(t[..j], start) + [x] + InPeriod(t[j..], start)
  {
    var j := InsertPosition(t, x);
    var lo, hi := t[..j], t[j..];
    assert t == lo + hi;
    InPeriodConcat(lo, hi, start);
    BeforeInsertPosition(t, x);
    NoneLaterInPeriod(lo, x, start);
    AllLaterInPeriod(hi, x, start);
    InsertBetween(InPeriod(lo, start), InPeriod(hi, start), x);
  }

  lemma SortSnoc(t: seq<JournalEntry>, x: JournalEntry)
    ensures SortByCreated(t + [x]) == Insert(SortByCreated(t), x)
  {
    assert (t + [x])[..|t|] == t;
  }

  /** Filtering commutes with sorting: the current period's entries, sorted. */
  lemma {:induction false} InPeriodOfSort(s: seq<JournalEntry>, start: int)
    ensures InPeriod(SortByCreated(s), start) == SortByCreated(InPeriod(s, start))
  {
    if s != [] {
      var init, x := s[..|s| - 1], s[|s| - 1];
      assert s == init + [x];
      InPeriodOfSort(init, start);
      SortSorted(init);
      SortSnoc(init, x);
      InPeriodInsert(SortByCreated(init), x, start);
      InPeriodSnoc(init, x, start);
      if x.createdAt >= start {
        SortSnoc(InPeriod(init, start), x);
        assert InPeriod(SortByCreated(s), start) == Insert(InPeriod(SortByCreated(init), start), x);
        assert InPeriod(s, start) == InPeriod(init, start) + [x];
        assert SortByCreated(InPeriod(s, start)) == Insert(SortByCreated(InPeriod(init, start)), x);
      } else {
        assert InPeriod(SortByCreated(s), start) == InPeriod(SortByCreated(init), start);
        assert InPeriod(s, start) == InPeriod(init, start);
      }
    }
  }

  /**
   * The index of the latest entry of `s`: no entry is later, and every entry
   * after it is strictly earlier, so among equal times it is the last one.
   */
  function LatestIndex(s: seq<JournalEntry>): (i: nat)
    requires s != []
    ensures i < |s|
    ensures forall k :: 0 <= k < |s| ==> s[k].createdAt <= s[i].createdAt
    ensures forall k :: i < k < |s| ==> s[k].createdAt < s[i].createdAt
  {
    if |s| == 1 then 0
    else
      var i := LatestIndex(s[..|s| - 1]);
      if s[i].createdAt <= s[|s| - 1].createdAt then |s| - 1 else i
  }

  /** The two properties of `LatestIndex` single out one index. */
  lemma LatestIndexUnique(s: seq<JournalEntry>, i: int)
    requires 0 <= i < |s|
    requires forall k :: 0 <= k < |s| ==> s[k].createdAt <= s[i].createdAt
    requires forall k :: i < k < |s| ==> s[k].createdAt < s[i].createdAt
    ensures i == LatestIndex(s)
  {
  }

  /** The last entry after sorting is the latest, the last one among equal times. */
  lemma {:induction false} SortLast(s: seq<JournalEntry>)
    requires s != []
    ensures SortByCreated(s)[|s| - 1] == s[LatestIndex(s)]
  {
    var init, x := s[..|s| - 1], s[|s| - 1];
    if |s| > 1 {
      var t := SortByCreated(init);
      SortLast(init);
      var l := LatestIndex(init);
      assert t[|t| - 1] == s[l];
      if t[|t| - 1].createdAt > x.createdAt {
        assert Insert(t, x) == Insert(t[..|t| - 1], x) + [t[|t| - 1]];
      }
    }
  }

  // ---------------------------------------------------------------------
  // The progress of a period
  // ---------------------------------------------------------------------

  /** The progress bounded to 0..100. */
  function Clamp(p: int): (r: int)
    ensures 0 <= r <= 100
    ensures 0 <= p <= 100 ==> r == p
    ensures p < 0 ==> r == 0
    ensures p > 100 ==> r == 100
  {
    var atMost100 := if p < 100 then p else 100;
    if atMost100 > 0 then atMost100 else 0
  }

  /**
   * The progress of the last entry of the sorted journal created at or
   * after `start`, or 0 when there is none, clamped to 0..100.
   */
  function PeriodProgress(journal: seq<JournalEntry>, start: int): (p: int)
    ensures 0 <= p <= 100
  {
    var inPeriod := InPeriod(SortByCreated(journal), start);
    Clamp(if |inPeriod| > 0 then inPeriod[|inPeriod| - 1].progress else 0)
  }

  /**
   * The progress is the clamped progress of the latest entry of the period,
   * the last one among equal times, and 0 when the period has no entry.
   */
  lemma PeriodProgressIsLatest(journal: seq<JournalEntry>, start: int)
    ensures var u := InPeriod(journal, start);
      && (u == [] ==> PeriodProgress(journal, start) == 0)
      && (u != [] ==> PeriodProgress(journal, start) == Clamp(u[LatestIndex(u)].progress))
  {
    var u := InPeriod(journal, start);
    InPeriodOfSort(journal, start);
    if u != [] {
      SortLast(u);
    }
  }

  /** A journal without an entry at or after `start` yields 0. */
  lemma NothingInPeriodIsZero(journal: seq<JournalEntry>, start: int)
    requires forall e :: e in journal ==> e.createdAt < start
    ensures PeriodProgress(journal, start) == 0
  {
    PeriodProgressIsLatest(journal, start);
    InPeriodEmpty(journal, start);
  }

  /** Only the entries of the period, in their order, decide the progress. */
  lemma OnlyPeriodEntriesMatter(journal: seq<JournalEntry>, other: seq<JournalEntry>, start: int)
    requires InPeriod(other, start) == InPeriod(journal, start)
    ensures PeriodProgress(other, start) == PeriodProgress(journal, start)
  {
    PeriodProgressIsLatest(journal, start);
    PeriodProgressIsLatest(other, start);
  }

  /** Entries created before `start` can be put anywhere in the journal without effect. */
  lemma EarlierEntriesIrrelevant(front: seq<JournalEntry>, earlier: seq<JournalEntry>, back: seq<JournalEntry>, start: int)
    requires forall e :: e in earlier ==> e.createdAt < start
    ensures PeriodProgress(front + earlier + back, start) == PeriodProgress(front + back, start)
  {
    InPeriodConcat(front + earlier, back, start);
    InPeriodConcat(front, earlier, start);
    InPeriodConcat(front, back, start);
    InPeriodEmpty(earlier, start);
    OnlyPeriodEntriesMatter(front + back, front + earlier + back, start);
  }

  /** The filter on a journal of two entries. */
  lemma InPeriodPair(a: JournalEntry, b: JournalEntry, start: int)
    ensures InPeriod([a, b], start)
         == (if a.createdAt >= start then [a] else []) + (if b.createdAt >= start then [b] else [])
  {
    assert [a] + [b] == [a, b];
    InPeriodSnoc([a], b, start);
    assert [] + [a] == [a];
    InPeriodSnoc([], a, start);
  }

  lemma BeforeThenAfter(before: JournalEntry, after: JournalEntry, start: int)
    requires before.createdAt < start <= after.createdAt
    ensures PeriodProgress([before, after], start) == Clamp(after.progress)
  {
    InPeriodPair(before, after, start);
    PeriodProgressIsLatest([before, after], start);
  }

  lemma AfterThenBefore(before: JournalEntry, after: JournalEntry, start: int)
    requires before.createdAt < start <= after.createdAt
    ensures PeriodProgress([after, before], start) == Clamp(after.progress)
  {
    InPeriodPair(after, before, start);
    PeriodProgressIsLatest([after, before], start);
  }

  /**
   * An entry just before the period and one inside it, in either order:
   * the one inside decides.
   */
  lemma TwoEntriesScenario(before: JournalEntry, after: JournalEntry, start: int)
    requires before.createdAt < start <= after.createdAt
    ensures PeriodProgress([before, after], start) == Clamp(after.progress)
    ensures PeriodProgress([after, before], start) == Clamp(after.progress)
  {
    BeforeThenAfter(before, after, start);
    AfterThenBefore(before, after, start);
  }
}
