/** assignHighlightsToChapters of content-script.js: sort the highlight
    pages in place, start one zero count per chapter in table-of-contents
    order, and for each highlight count it under the last chapter (scanning
    from the end) whose start page is at most the highlight's page. */
module ChapterAssigner {
  import opened Wrappers
  import opened PositionReader
  import opened ChapterWalker

  /** One element of the result: a chapter's title, its start page and the
      number of highlights counted under it. */
  datatype ChapterCount = ChapterCount(title: string, startPage: nat, count: nat)

  predicate Sorted(s: seq<nat>) {
    forall p, q :: 0 <= p < q < |s| ==> s[p] <= s[q]
  }

  // ---------------------------------------------------------------------
  // Which chapter a highlight is counted under.

  /** The backward scan over chapters[..n]: the largest index below n whose
      start page is at most h, or None. */
  function OwnerBelow(chapters: seq<Chapter>, h: nat, n: nat): Option<nat>
    requires n <= |chapters|
  {
    if n == 0 then None
    else if h >= chapters[n - 1].page then Some(n - 1)
    else OwnerBelow(chapters, h, n - 1)
  }

  /** The chapter a highlight on page h is counted under. */
  function Owner(chapters: seq<Chapter>, h: nat): Option<nat> {
    OwnerBelow(chapters, h, |chapters|)
  }

  lemma {:induction false} OwnerBelowSpec(chapters: seq<Chapter>, h: nat, n: nat)
    requires n <= |chapters|
    ensures OwnerBelow(chapters, h, n).Some? ==>
      var i := OwnerBelow(chapters, h, n).value;
      i < n && chapters[i].page <= h && forall j :: i < j < n ==> chapters[j].page > h
    ensures OwnerBelow(chapters, h, n).None? <==> forall j :: 0 <= j < n ==> chapters[j].page > h
  {
    if n > 0 && h < chapters[n - 1].page {
      OwnerBelowSpec(chapters, h, n - 1);
    }
  }

  /** A highlight is counted under chapter i exactly when i is the last
      chapter starting at or before it, and dropped exactly when every
      chapter starts after it. */
  lemma OwnerIsLastAtOrBefore(chapters: seq<Chapter>, h: nat, i: nat)
    ensures Owner(chapters, h) == Some(i) <==>
      i < |chapters| && chapters[i].page <= h && forall j :: i < j < |chapters| ==> chapters[j].page > h
    ensures Owner(chapters, h).None? <==> forall j :: 0 <= j < |chapters| ==> chapters[j].page > h
  {
    OwnerBelowSpec(chapters, h, |chapters|);
  }

  // ---------------------------------------------------------------------
  // The counts.

  /** How many of the highlights are counted under chapter i. */
  function CountOwned(chapters: seq<Chapter>, hs: seq<nat>, i: nat): nat {
    if hs == [] then 0
    else CountOwned(chapters, hs[..|hs| - 1], i) + (if Owner(chapters, hs[|hs| - 1]) == Some(i) then 1 else 0)
  }

  /** The result of assignHighlightsToChapters for the highlight pages hs:
      one element per chapter, in the chapters' order. */
  function Assigned(chapters: seq<Chapter>, hs: seq<nat>): (result: seq<ChapterCount>)
    ensures |result| == |chapters|
  {
    seq(|chapters|, (i: nat) requires i < |chapters| =>
      ChapterCount(chapters[i].title, chapters[i].page, CountOwned(chapters, hs, i)))
  }

  /** Counting one more highlight adds one to its owner's count and leaves
      every other count alone. */
  lemma AssignedStep(chapters: seq<Chapter>, hs: seq<nat>, h: nat)
    ensures var before := Assigned(chapters, hs);
      var after := Assigned(chapters, hs + [h]);
      forall i :: 0 <= i < |chapters| ==>
        after[i] == if Owner(chapters, h) == Some(i) then before[i].(count := before[i].count + 1) else before[i]
  {
    assert (hs + [h])[..|hs|] == hs;
  }

  // ---------------------------------------------------------------------
  // The sort.

  /** Array.prototype.sort with comparator (a, b) => a - b: the pages end
      up in ascending order, as a permutation of the input. The source does
      not fix the algorithm; this is an insertion sort by adjacent swaps. */
  method SortAscending(a: array<nat>)
    modifies a
    ensures Sorted(a[..])
    ensures multiset(a[..]) == multiset(old(a[..]))
  {
    for i := 0 to a.Length
      invariant Sorted(a[..i])
      invariant multiset(a[..]) == multiset(old(a[..]))
    {
      InsertLast(a, i);
    }
  }

  /** One pass of the insertion sort: with a[..i] sorted, swap a[i]
      leftwards until a[..i + 1] is sorted. */
  method InsertLast(a: array<nat>, i: nat)
    requires i < a.Length && Sorted(a[..i])
    modifies a
    ensures Sorted(a[..i + 1])
    ensures multiset(a[..]) == multiset(old(a[..]))
  {
    var j: nat := i;
    InsertStart(a[..], i);
    while j > 0 && a[j - 1] > a[j]
      invariant Inserting(a[..], i, j)
      invariant multiset(a[..]) == multiset(old(a[..]))
    {
      ghost var before := a[..];
      a[j - 1], a[j] := a[j], a[j - 1];
      SwapStep(before, a[..], i, j);
      j := j - 1;
    }
    InsertDone(a[..], i, j);
  }

  /** The state of an insertion pass over s[..i + 1] whose moving element
      is at j: the other elements are in order, and the moving element is
      at most everything to its right. */
  predicate Inserting(s: seq<nat>, i: nat, j: nat) {
    j <= i < |s|
    && (forall p, q :: 0 <= p < q <= i && p != j && q != j ==> s[p] <= s[q])
    && (forall q :: j < q <= i ==> s[j] <= s[q])
  }

  lemma InsertStart(s: seq<nat>, i: nat)
    requires i < |s| && Sorted(s[..i])
    ensures Inserting(s, i, i)
  {
    assert forall p :: 0 <= p < i ==> s[..i][p] == s[p];
  }

  /** Swapping the moving element with a larger left neighbour keeps the
      pass's state and the elements. */
  lemma SwapStep(before: seq<nat>, after: seq<nat>, i: nat, j: nat)
    requires Inserting(before, i, j) && 0 < j && before[j - 1] > before[j]
    requires after == before[j - 1 := before[j]][j := before[j - 1]]
    ensures Inserting(after, i, j - 1)
    ensures multiset(after) == multiset(before)
  {
  }

  lemma InsertDone(s: seq<nat>, i: nat, j: nat)
    requires Inserting(s, i, j) && (j == 0 || s[j - 1] <= s[j])
    ensures Sorted(s[..i + 1])
  {
    forall p, q | 0 <= p < q <= i
      ensures s[p] <= s[q]
    {
      if p == j || q == j {
        if 0 < j && p < j - 1 {
          assert s[p] <= s[j - 1];
        }
      }
    }
  }

  // ---------------------------------------------------------------------
  // assignHighlightsToChapters

  /** The backward scan for one highlight: count it under the first chapter
      from the end that starts at or before it; if none does, drop it. */
  method CountHighlight(chapters: seq<Chapter>, counts: array<ChapterCount>, h: nat)
    requires counts.Length == |chapters|
    modifies counts
    ensures forall i :: 0 <= i < |chapters| ==>
      counts[i] == if Owner(chapters, h) == Some(i) then old(counts[i]).(count := old(counts[i]).count + 1) else old(counts[i])
  {
    var i := |chapters| - 1;
    while i >= 0
      invariant -1 <= i < |chapters|
      invariant OwnerBelow(chapters, h, i + 1) == Owner(chapters, h)
      invariant counts[..] == old(counts[..])
    {
      if h >= chapters[i].page {
        counts[i] := counts[i].(count := counts[i].count + 1);
        return;
      }
      i := i - 1;
    }
  }

  /** assignHighlightsToChapters. The highlights array is sorted in place
      and the result is the tally of its pages, which is also the tally of
      the pages as they were passed in. */
  method AssignHighlightsToChapters(chapters: seq<Chapter>, highlights: array<nat>)
    returns (result: seq<ChapterCount>)
    modifies highlights
    ensures Sorted(highlights[..])
    ensures multiset(highlights[..]) == multiset(old(highlights[..]))
    ensures result == Assigned(chapters, highlights[..])
    ensures result == Assigned(chapters, old(highlights[..]))
  {
    SortAscending(highlights);
    var counts := new ChapterCount[|chapters|](
      (i: nat) requires i < |chapters| => ChapterCount(chapters[i].title, chapters[i].page, 0));
    assert counts[..] == Assigned(chapters, []);
    ghost var sorted := highlights[..];
    for k := 0 to highlights.Length
      invariant highlights[..] == sorted
      invariant counts[..] == Assigned(chapters, highlights[..k])
    {
      AssignedStep(chapters, highlights[..k], highlights[k]);
      assert highlights[..k + 1] == highlights[..k] + [highlights[k]];
      CountHighlight(chapters, counts, highlights[k]);
    }
    assert highlights[..highlights.Length] == highlights[..];
    result := counts[..];
    AssignOrderIndependent(chapters, highlights[..], old(highlights[..]));
  }

  // ---------------------------------------------------------------------
  // Properties of the counts.

  lemma {:induction false} CountOwnedAppend(chapters: seq<Chapter>, a: seq<nat>, b: seq<nat>, i: nat)
    ensures CountOwned(chapters, a + b, i) == CountOwned(chapters, a, i) + CountOwned(chapters, b, i)
    decreases |b|
  {
    if b == [] {
      assert a + b == a;
    } else {
      var n := |b| - 1;
      assert (a + b)[..|a + b| - 1] == a + b[..n];
      assert (a + b)[|a + b| - 1] == b[n];
      CountOwnedAppend(chapters, a, b[..n], i);
    }
  }

  /** A count depends only on which pages occur how often, not on their
      order. */
  lemma {:induction false} CountOwnedPermutation(chapters: seq<Chapter>, a: seq<nat>, b: seq<nat>, i: nat)
    requires multiset(a) == multiset(b)
    ensures CountOwned(chapters, a, i) == CountOwned(chapters, b, i)
    decreases |a|
  {
    if a == [] {
      assert |multiset(b)| == 0;
    } else {
      var n := |a| - 1;
      var x := a[n];
      assert a == a[..n] + [x];
      assert multiset(a) == multiset(a[..n]) + multiset{x};
      assert x in multiset(b);
      var j :| 0 <= j < |b| && b[j] == x;
      RemoveOne(b, j);
      CountOwnedPermutation(chapters, a[..n], b[..j] + b[j + 1..], i);
      CountOwnedRemove(chapters, b, j, i);
    }
  }

  lemma RemoveOne(b: seq<nat>, j: nat)
    requires j < |b|
    ensures multiset(b[..j] + b[j + 1..]) == multiset(b) - multiset{b[j]}
  {
    assert b == b[..j] + [b[j]] + b[j + 1..];
  }

  /** Taking one page out of the list takes it out of its owner's count. */
  lemma CountOwnedRemove(chapters: seq<Chapter>, b: seq<nat>, j: nat, i: nat)
    requires j < |b|
    ensures CountOwned(chapters, b, i) ==
      CountOwned(chapters, b[..j] + b[j + 1..], i) + (if Owner(chapters, b[j]) == Some(i) then 1 else 0)
  {
    assert b == b[..j] + [b[j]] + b[j + 1..];
    CountOwnedAppend(chapters, b[..j] + [b[j]], b[j + 1..], i);
    CountOwnedAppend(chapters, b[..j], [b[j]], i);
    CountOwnedAppend(chapters, b[..j], b[j + 1..], i);
    assert [b[j]][..0] == [];
  }

  /** The result does not depend on the order the highlights come in. */
  lemma AssignOrderIndependent(chapters: seq<Chapter>, a: seq<nat>, b: seq<nat>)
    requires multiset(a) == multiset(b)
    ensures Assigned(chapters, a) == Assigned(chapters, b)
  {
    forall i | 0 <= i < |chapters|
      ensures CountOwned(chapters, a, i) == CountOwned(chapters, b, i)
    {
      CountOwnedPermutation(chapters, a, b, i);
    }
  }

  /** A chapter that a later chapter starts at or before never receives a
      highlight: with equal start pages the later chapter wins. */
  lemma {:induction false} ShadowedChapterCountsNothing(chapters: seq<Chapter>, hs: seq<nat>, i: nat, j: nat)
    requires i < j < |chapters| && chapters[j].page <= chapters[i].page
    ensures CountOwned(chapters, hs, i) == 0
  {
    if hs != [] {
      ShadowedChapterCountsNothing(chapters, hs[..|hs| - 1], i, j);
      OwnerIsLastAtOrBefore(chapters, hs[|hs| - 1], i);
    }
  }

  /** The smallest start page of a non-empty chapter list. */
  function MinStart(chapters: seq<Chapter>): nat
    requires chapters != []
  {
    if |chapters| == 1 then chapters[0].page
    else
      var m := MinStart(chapters[..|chapters| - 1]);
      if chapters[|chapters| - 1].page < m then chapters[|chapters| - 1].page else m
  }

  lemma {:induction false} MinStartIsMin(chapters: seq<Chapter>)
    requires chapters != []
    ensures exists i :: 0 <= i < |chapters| && chapters[i].page == MinStart(chapters)
    ensures forall i :: 0 <= i < |chapters| ==> MinStart(chapters) <= chapters[i].page
  {
    if |chapters| == 1 {
      assert chapters[0].page == MinStart(chapters);
    } else {
      var init := chapters[..|chapters| - 1];
      MinStartIsMin(init);
      assert forall i :: 0 <= i < |init| ==> init[i] == chapters[i];
      var w :| 0 <= w < |init| && init[w].page == MinStart(init);
      assert MinStart(chapters) <= MinStart(init);
      assert MinStart(chapters) <= chapters[|chapters| - 1].page;
      if chapters[|chapters| - 1].page < MinStart(init) {
        assert chapters[|chapters| - 1].page == MinStart(chapters);
      } else {
        assert chapters[w].page == MinStart(chapters);
      }
    }
  }

  /** A highlight is counted under some chapter exactly when it is not
      below every start page. */
  lemma OwnedIffAtLeastMinStart(chapters: seq<Chapter>, h: nat)
    ensures Owner(chapters, h).Some? <==> chapters != [] && h >= MinStart(chapters)
  {
    OwnerIsLastAtOrBefore(chapters, h, 0);
    if chapters != [] {
      MinStartIsMin(chapters);
    }
  }

  /** How many of hs are at least m. */
  function CountAtLeast(hs: seq<nat>, m: nat): nat {
    if hs == [] then 0
    else CountAtLeast(hs[..|hs| - 1], m) + (if hs[|hs| - 1] >= m then 1 else 0)
  }

  lemma {:induction false} CountAtLeastBound(hs: seq<nat>, m: nat)
    ensures CountAtLeast(hs, m) <= |hs|
    ensures CountAtLeast(hs, m) == |hs| <==> forall k :: 0 <= k < |hs| ==> hs[k] >= m
  {
    if hs != [] {
      var n := |hs| - 1;
      CountAtLeastBound(hs[..n], m);
      assert forall k :: 0 <= k < n ==> hs[..n][k] == hs[k];
    }
  }

  /** The sum of the counts. */
  function SumCounts(cs: seq<ChapterCount>): nat {
    if cs == [] then 0 else SumCounts(cs[..|cs| - 1]) + cs[|cs| - 1].count
  }

  /** Bumping one element adds one to the sum. */
  lemma {:induction false} SumCountsBump(before: seq<ChapterCount>, after: seq<ChapterCount>, o: Option<nat>)
    requires |before| == |after|
    requires forall i :: 0 <= i < |after| ==>
      after[i] == if o == Some(i) then before[i].(count := before[i].count + 1) else before[i]
    ensures SumCounts(after) == SumCounts(before) + (if o.Some? && o.value < |before| then 1 else 0)
  {
    if before != [] {
      var n := |before| - 1;
      SumCountsBump(before[..n], after[..n], o);
    }
  }

  /** Every highlight at or above the smallest start page is counted
      exactly once, and every other one is dropped: the counts add up to
      the number of highlights not below every chapter. */
  lemma {:induction false} SumOfCounts(chapters: seq<Chapter>, hs: seq<nat>)
    ensures SumCounts(Assigned(chapters, hs)) == if chapters == [] then 0 else CountAtLeast(hs, MinStart(chapters))
  {
    if chapters == [] {
      assert Assigned(chapters, hs) == [];
    } else if hs == [] {
      SumCountsZero(Assigned(chapters, hs));
    } else {
      var n := |hs| - 1;
      var h := hs[n];
      assert hs == hs[..n] + [h];
      SumOfCounts(chapters, hs[..n]);
      AssignedStep(chapters, hs[..n], h);
      OwnedIffAtLeastMinStart(chapters, h);
      if Owner(chapters, h).Some? {
        OwnerIsLastAtOrBefore(chapters, h, Owner(chapters, h).value);
      }
      SumCountsBump(Assigned(chapters, hs[..n]), Assigned(chapters, hs), Owner(chapters, h));
    }
  }

  lemma {:induction false} SumCountsZero(cs: seq<ChapterCount>)
    requires forall i :: 0 <= i < |cs| ==> cs[i].count == 0
    ensures SumCounts(cs) == 0
  {
    if cs != [] {
      SumCountsZero(cs[..|cs| - 1]);
    }
  }

  /** Chapters need not be in ascending order: a highlight on page 60 with
      chapters starting at pages 10, 50 and 30 goes to the last one. */
  lemma NonMonotonicStarts(t0: string, t1: string, t2: string)
    ensures Owner([Chapter(t0, 10, Page), Chapter(t1, 50, Page), Chapter(t2, 30, Page)], 60) == Some(2)
    ensures Owner([Chapter(t0, 10, Page), Chapter(t1, 50, Page), Chapter(t2, 30, Page)], 40) == Some(2)
    ensures Owner([Chapter(t0, 10, Page), Chapter(t1, 50, Page), Chapter(t2, 30, Page)], 5).None?
  {
    var cs := [Chapter(t0, 10, Page), Chapter(t1, 50, Page), Chapter(t2, 30, Page)];
    assert OwnerBelow(cs, 60, 3) == Some(2);
    assert OwnerBelow(cs, 40, 3) == Some(2);
    assert OwnerBelow(cs, 5, 0).None?;
    assert OwnerBelow(cs, 5, 1) == OwnerBelow(cs, 5, 0);
    assert OwnerBelow(cs, 5, 2) == OwnerBelow(cs, 5, 1);
  }
}
