/** generateTestData of content-script.js: 35 chapters, chapter i starting
    at page 20 * i, each followed by a random number of highlights on
    random pages inside the chapter. The random choices are a parameter:
    draws[i - 1] lists the page offsets drawn for chapter i, one per
    highlight. */
module TestData {
  import opened Wrappers
  import opened Text
  import opened PositionReader
  import opened ChapterWalker
  import opened HighlightCollector
  import opened ChapterAssigner
  import opened Dashboard

  const ChapterTotal: nat := 35
  const ChapterSpacing: nat := 20

  function TestTitle(i: nat): string {
    "Chapter " + Decimal(i) + ": Test Chapter With A Long Name That Tests Layout"
  }

  function TestText(j: nat, i: nat): string {
    "Test highlight " + Decimal(j) + " for chapter " + Decimal(i)
  }

  /** Chapter i, counted from 1. */
  function TestChapter(i: nat): Chapter {
    Chapter(TestTitle(i), i * ChapterSpacing, Page)
  }

  /** The first n chapters. */
  function TestChapters(n: nat): (chapters: seq<Chapter>)
    ensures |chapters| == n
  {
    seq(n, (k: nat) => TestChapter(k + 1))
  }

  /** The highlights of chapter i, one per drawn offset. */
  function ChapterHighlights(i: nat, offsets: seq<nat>): (hs: seq<Highlight>)
    ensures |hs| == |offsets|
  {
    seq(|offsets|, (j: nat) requires j < |offsets| => Highlight(i * ChapterSpacing + offsets[j], TestText(j + 1, i)))
  }

  /** The highlights of the first n chapters, chapter by chapter. */
  function TestHighlights(draws: seq<seq<nat>>, n: nat): seq<Highlight>
    requires n <= |draws|
  {
    if n == 0 then [] else TestHighlights(draws, n - 1) + ChapterHighlights(n, draws[n - 1])
  }

  /** What Math.floor(Math.random() * 10) + 5 and
      Math.floor(Math.random() * 19) can produce: 5 to 14 highlights per
      chapter, each 0 to 18 pages after the chapter's start. */
  predicate PossibleDraws(draws: seq<seq<nat>>) {
    |draws| == ChapterTotal &&
    forall i :: 0 <= i < |draws| ==>
      5 <= |draws[i]| <= 14 && forall j :: 0 <= j < |draws[i]| ==> draws[i][j] <= 18
  }

  /** generateTestData, with the random numbers taken from draws. */
  method GenerateTestData(draws: seq<seq<nat>>) returns (chapters: seq<Chapter>, highlights: seq<Highlight>)
    requires |draws| == ChapterTotal
    ensures chapters == TestChapters(ChapterTotal)
    ensures highlights == TestHighlights(draws, ChapterTotal)
  {
    chapters := [];
    highlights := [];
    for i := 1 to ChapterTotal + 1
      invariant chapters == TestChapters(i - 1)
      invariant highlights == TestHighlights(draws, i - 1)
    {
      chapters := chapters + [Chapter(TestTitle(i), i * ChapterSpacing, Page)];
      var offsets := draws[i - 1];
      ghost var before := highlights;
      for j := 0 to |offsets|
        invariant highlights == before + ChapterHighlights(i, offsets)[..j]
      {
        assert ChapterHighlights(i, offsets)[..j + 1] == ChapterHighlights(i, offsets)[..j] + [ChapterHighlights(i, offsets)[j]];
        highlights := highlights + [Highlight(i * ChapterSpacing + offsets[j], TestText(j + 1, i))];
      }
      assert ChapterHighlights(i, offsets)[..|offsets|] == ChapterHighlights(i, offsets);
    }
  }

  /** A highlight drawn for chapter i (offset at most 18) belongs to it. */
  lemma OwnedByOwnChapter(i: nat, d: nat)
    requires 1 <= i <= ChapterTotal && d <= 18
    ensures Owner(TestChapters(ChapterTotal), i * ChapterSpacing + d) == Some(i - 1)
  {
    OwnerIsLastAtOrBefore(TestChapters(ChapterTotal), i * ChapterSpacing + d, i - 1);
  }

  lemma {:induction false} ChapterBlockCount(i: nat, offsets: seq<nat>, c: nat)
    requires 1 <= i <= ChapterTotal && forall j :: 0 <= j < |offsets| ==> offsets[j] <= 18
    ensures CountOwned(TestChapters(ChapterTotal), Pages(ChapterHighlights(i, offsets)), c) ==
      if c == i - 1 then |offsets| else 0
  {
    var chapters := TestChapters(ChapterTotal);
    if offsets != [] {
      var n := |offsets| - 1;
      var pages := Pages(ChapterHighlights(i, offsets));
      assert pages[..n] == Pages(ChapterHighlights(i, offsets[..n]));
      assert pages[n] == i * ChapterSpacing + offsets[n];
      ChapterBlockCount(i, offsets[..n], c);
      OwnedByOwnChapter(i, offsets[n]);
      assert CountOwned(chapters, pages, c) ==
        CountOwned(chapters, pages[..n], c) + (if c == i - 1 then 1 else 0);
    }
  }

  lemma {:induction false} TestHighlightsCount(draws: seq<seq<nat>>, n: nat, c: nat)
    requires PossibleDraws(draws) && n <= ChapterTotal
    ensures CountOwned(TestChapters(ChapterTotal), Pages(TestHighlights(draws, n)), c) ==
      if c < n then |draws[c]| else 0
  {
    if n > 0 {
      var chapters := TestChapters(ChapterTotal);
      var earlier := TestHighlights(draws, n - 1);
      var block := ChapterHighlights(n, draws[n - 1]);
      assert TestHighlights(draws, n) == earlier + block;
      PagesAppend(earlier, block);
      TestHighlightsCount(draws, n - 1, c);
      ChapterBlockCount(n, draws[n - 1], c);
      CountOwnedAppend(chapters, Pages(earlier), Pages(block), c);
    }
  }

  /** In test mode, every generated highlight is counted under the chapter
      it was generated for: chapter i's count is the number of highlights
      drawn for it, whatever the random draws were. */
  lemma TestDataCountsEachChapter(draws: seq<seq<nat>>)
    requires PossibleDraws(draws)
    ensures var results := Assigned(TestChapters(ChapterTotal), Pages(TestHighlights(draws, ChapterTotal)));
      |results| == ChapterTotal &&
      forall c :: 0 <= c < ChapterTotal ==>
        results[c].title == TestTitle(c + 1) && results[c].startPage == (c + 1) * ChapterSpacing &&
        results[c].count == |draws[c]| && 5 <= results[c].count <= 14
  {
    forall c | 0 <= c < ChapterTotal
      ensures CountOwned(TestChapters(ChapterTotal), Pages(TestHighlights(draws, ChapterTotal)), c) == |draws[c]|
    {
      TestHighlightsCount(draws, ChapterTotal, c);
    }
  }

  /** Every generated highlight is on page 20 or later. */
  lemma {:induction false} TestPagesFromFirstChapter(draws: seq<seq<nat>>, n: nat)
    requires n <= |draws|
    ensures forall k :: 0 <= k < |TestHighlights(draws, n)| ==> TestHighlights(draws, n)[k].page >= ChapterSpacing
  {
    if n > 0 {
      TestPagesFromFirstChapter(draws, n - 1);
      var earlier := TestHighlights(draws, n - 1);
      var block := ChapterHighlights(n, draws[n - 1]);
      assert TestHighlights(draws, n) == earlier + block;
      assert forall k :: |earlier| <= k < |earlier| + |block| ==> (earlier + block)[k] == block[k - |earlier|];
    }
  }

  /** In test mode no highlight is dropped: the counts add up to the number
      of generated highlights. */
  lemma TestDataCountsAll(draws: seq<seq<nat>>)
    requires |draws| == ChapterTotal
    ensures SumCounts(Assigned(TestChapters(ChapterTotal), Pages(TestHighlights(draws, ChapterTotal))))
         == |TestHighlights(draws, ChapterTotal)|
  {
    var chapters := TestChapters(ChapterTotal);
    var pages := Pages(TestHighlights(draws, ChapterTotal));
    SumOfCounts(chapters, pages);
    MinStartIsMin(chapters);
    TestPagesFromFirstChapter(draws, ChapterTotal);
    assert MinStart(chapters) <= chapters[0].page == ChapterSpacing;
    CountAtLeastBound(pages, MinStart(chapters));
  }
}
