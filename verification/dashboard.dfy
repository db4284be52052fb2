/** runDashboard of content-script.js: read the chapters from the table of
    contents (reporting progress per entry), collect the highlights from
    the annotations panel, and count the highlights' pages per chapter. */
module Dashboard {
  import opened ChapterWalker
  import opened HighlightCollector
  import opened ChapterAssigner

  /** highlights.map(h => h.page) */
  function Pages(highlights: seq<Highlight>): (pages: seq<nat>)
    ensures |pages| == |highlights|
  {
    seq(|highlights|, (k: nat) requires k < |highlights| => highlights[k].page)
  }

  lemma PagesAppend(x: seq<Highlight>, y: seq<Highlight>)
    ensures Pages(x + y) == Pages(x) + Pages(y)
  {
  }

  /** The per-chapter counts runDashboard reports for the two views. */
  function DashboardOf(toc: TocView, annotations: AnnotationsView): seq<ChapterCount> {
    Assigned(ChaptersOf(toc), Pages(HighlightsOf(annotations)))
  }

  /** runDashboard. The progress messages for the table of contents are
      returned as events; the messages' percentages and the final message
      to the popup are not modelled. */
  method RunDashboard(toc: TocView, annotations: AnnotationsView)
    returns (results: seq<ChapterCount>, progress: seq<ProgressEvent>)
    ensures results == DashboardOf(toc, annotations)
    ensures progress == ProgressOf(toc, true)
  {
    var chapters;
    chapters, progress := GetChapterData(toc, true);
    var highlights := GetHighlightsData(annotations);
    var pages := new nat[|highlights|]((k: nat) requires k < |highlights| => highlights[k].page);
    assert pages[..] == Pages(highlights);
    results := AssignHighlightsToChapters(chapters, pages);
  }

  /** Each chapter read from the table of contents gets one result, in
      order, carrying its title and start page, and no highlight is counted
      twice: the counts add up to at most the number of collected
      highlights. */
  lemma DashboardSummary(toc: TocView, annotations: AnnotationsView)
    ensures var results := DashboardOf(toc, annotations);
      var chapters := ChaptersOf(toc);
      |results| == |chapters| &&
      (forall i :: 0 <= i < |results| ==>
        results[i].title == chapters[i].title && results[i].startPage == chapters[i].page) &&
      SumCounts(results) <= |HighlightsOf(annotations)|
  {
    var hs := Pages(HighlightsOf(annotations));
    SumOfCounts(ChaptersOf(toc), hs);
    if ChaptersOf(toc) != [] {
      CountAtLeastBound(hs, MinStart(ChaptersOf(toc)));
    }
  }
}
